/**
 * The state pr-splitter changes in place (the repository and its working
 * directory) and the operations of `program` that change it.
 */
module Pipeline {
  import opened Wrappers
  import opened PatchStore
  import opened Git
  import RefValidation

  /** The answer of a text prompt: its text, or the symbol the prompt library returns on cancel. */
  datatype PromptAnswer = Text(value: string) | Cancelled

  /** Why a run ended before anything was applied. */
  datatype StopReason = DiffFailed | EmptyDiff | SplitFailed | WriteFailed(index: nat)

  /**
   * The end of a run: stopped early, split without applying (no target
   * branch given), or handed to `applyChanges`.
   */
  datatype RunOutcome = Stopped(reason: StopReason) | SplitOnly(commits: nat) | Reconstructed(result: ApplyOutcome)

  /** The gate in front of `applyChanges`: the answer must be a non-empty string. */
  predicate IsNonEmptyString(a: PromptAnswer)
  {
    a.Text? && |a.value| > 0
  }

  /**
   * Behind the validator of the target prompt, the gate in front of
   * `applyChanges` only stops a cancel: an accepted text is never empty.
   */
  lemma ValidatedAnswerPassesGate(a: PromptAnswer)
    ensures a.Text? && RefValidation.Validate(a.value) == None ==> IsNonEmptyString(a)
    ensures !IsNonEmptyString(a) && (a.Text? ==> RefValidation.Validate(a.value) == None) ==> a == Cancelled
  {
  }

  /** The paths built from the names of a directory listing, in listing order. */
  function ListedPaths(names: seq<string>): seq<Path>
  {
    seq(|names|, i requires 0 <= i < |names| => ListedPath(names[i]))
  }

  /**
   * A listing whose i-th name is `messages[i] + ".patch"`, for messages the
   * write loop wrote, gives, position by position, the patch path of each
   * message, and each of those paths holds a written file.
   */
  lemma ListedPatchesWritten(files: map<Path, string>, units: seq<CommitUnit>, names: seq<string>, messages: seq<string>)
    requires |names| == |messages|
    requires forall i :: 0 <= i < |names| ==> names[i] == messages[i] + PATCH_SUFFIX && messages[i] in Messages(units)
    ensures |ListedPaths(names)| == |names|
    ensures forall i :: 0 <= i < |names| ==>
      ListedPaths(names)[i] == DiffFileName(messages[i]) && ListedPaths(names)[i] in WriteAll(files, units)
  {
    forall i | 0 <= i < |names|
      ensures ListedPaths(names)[i] == DiffFileName(messages[i]) && ListedPaths(names)[i] in WriteAll(files, units)
    {
      ListedPatchFile(messages[i]);
      var k :| 0 <= k < |units| && units[k].message == messages[i];
      assert DiffFileName(units[k].message) in PatchPaths(units);
    }
  }

  /**
   * The `for` loop of `applyChanges` on the newly created branch, whose
   * history starts as `base`: `git apply` then `git commit` for each file in
   * list order, stopping at the first failure (the throw that reaches the
   * `catch`). It returns the branch's history, the failure and the calls issued.
   */
  method CommitEach(base: seq<Commit>, diffFileNames: seq<Path>, files: map<Path, string>, g: Gateway)
    returns (history: seq<Commit>, failure: Option<Failure>, issued: seq<Call>)
    ensures Replayed(history, failure, issued) == Replay(base, diffFileNames, files, g)
  {
    history, failure, issued := base, None, [];
    var i := 0;
    while i < |diffFileNames|
      invariant 0 <= i <= |diffFileNames|
      invariant ReplayFrom(Replayed(history, None, issued), diffFileNames, i, files, g) == Replay(base, diffFileNames, files, g)
    {
      var fileName := diffFileNames[i];
      ghost var next := Step(Replayed(history, None, issued), i, fileName, files, g);
      assert ReplayFrom(next, diffFileNames, i + 1, files, g) == Replay(base, diffFileNames, files, g);
      issued := issued + [Apply(fileName)];
      if !(fileName in files && g.applies(history, files[fileName])) {
        failure := Some(ApplyFailed(i));
        assert next == Replayed(history, failure, issued);
        return;
      }
      var message := CommitMessage(fileName);
      issued := issued + [CommitStaged(message)];
      if !g.commits(history, files[fileName]) {
        failure := Some(CommitFailed(i));
        assert next == Replayed(history, failure, issued);
        return;
      }
      history := history + [Commit(message, files[fileName])];
      assert next == Replayed(history, None, issued);
      i := i + 1;
    }
  }

  /** The repository (checked-out branch, branches with their commits) and the working directory. */
  class Workspace {
    var current: Branch
    var branches: map<Branch, seq<Commit>>
    var dirs: set<Path>
    var files: map<Path, string>
    /** Every external call issued so far. */
    var log: seq<Call>

    /** The checked-out branch is one of the branches. */
    ghost predicate Valid()
      reads this
    {
      current in branches
    }

    constructor (branch: Branch, history: seq<Commit>)
      ensures Valid()
      ensures current == branch && branches == map[branch := history]
      ensures dirs == {} && files == map[] && log == []
    {
      current := branch;
      branches := map[branch := history];
      dirs := {};
      files := map[];
      log := [];
    }

    /** `git branch --show-current`. */
    method ShowCurrentBranch() returns (shown: ExecResult)
      modifies this`log
      ensures shown.stdout == current
      ensures log == old(log) + [ShowCurrent]
    {
      log := log + [ShowCurrent];
      shown := ExecResult(current);
    }

    /** `initializeFolderIfNotExists`. */
    method InitializeFolderIfNotExists(path: Path)
      modifies this`dirs
      ensures dirs == EnsureFolder(old(dirs), files, path)
    {
      if !(path in dirs || path in files) {
        dirs := dirs + {path};
      }
    }

    /**
     * The loop of `program` that writes one patch file per unit; a write
     * that fails ends it, and the files already written stay.
     */
    method WritePatches(units: seq<CommitUnit>, writable: Path -> bool) returns (failedAt: Option<nat>)
      modifies this`files
      ensures failedAt == FirstUnwritable(units, writable)
      ensures files == WriteAll(old(files), units[..WrittenCount(units, writable)])
    {
      var i := 0;
      while i < |units|
        invariant 0 <= i <= |units|
        invariant forall j :: 0 <= j < i ==> writable(DiffFileName(units[j].message))
        invariant files == WriteAll(old(files), units[..i])
      {
        var path := DiffFileName(units[i].message);
        if !writable(path) {
          return Some(i);
        }
        assert units[..i + 1][..i] == units[..i];
        files := files[path := units[i].diffFileContent];
        i := i + 1;
      }
      assert units[..i] == units;
      return None;
    }

    /**
     * `applyChanges`: record the checked-out branch, switch to
     * `fromCommitHash`, create `target` there, then apply and commit each
     * file in list order; on success and on any failure switch back to the
     * recorded branch.
     */
    method ApplyChanges(fromCommitHash: string, target: Branch, diffFileNames: seq<Path>, g: Gateway)
      returns (out: ApplyOutcome)
      requires Valid()
      modifies this`current, this`branches, this`log
      ensures Valid()
      ensures current == old(current)
      ensures var r := Reconstruct(old(current), old(branches), fromCommitHash, target, diffFileNames, files, g);
        branches == r.branches && out == r.outcome && log == old(log) + r.issued
    {
      var shown := ExecResult(current);
      SwitchBackTargetsEntryBranch(shown);
      var entry := TemplateArgument(EntryBranch(shown)).value;
      if fromCommitHash !in branches {
        current, log := entry, log + [ShowCurrent, Switch(fromCommitHash), Switch(entry)];
        return Aborted(SwitchFailed, 0);
      }
      if target in branches {
        current, log := entry, log + [ShowCurrent, Switch(fromCommitHash), SwitchCreate(target), Switch(entry)];
        return Aborted(CreateFailed, 0);
      }
      var base := branches[fromCommitHash];
      var history, failure, issued := CommitEach(base, diffFileNames, files, g);
      ReconstructCreates(current, branches, fromCommitHash, target, diffFileNames, files, g, Replayed(history, failure, issued));
      var made := |history| - |base|;
      current, branches, log := entry, branches[target := history],
                                log + [ShowCurrent, Switch(fromCommitHash), SwitchCreate(target)] + issued + [Switch(entry)];
      out := if failure.None? then Applied(made) else Aborted(failure.value, made);
    }

    /**
     * The second half of `program`, once the language model has answered: write one
     * patch per unit, and hand the listed patch files to `applyChanges` when
     * a target branch was given.
     */
    method SplitAndApply(fromCommitHash: string, units: seq<CommitUnit>, writable: Path -> bool,
                         target: PromptAnswer, listing: seq<string>, g: Gateway)
      returns (out: RunOutcome)
      requires Valid()
      modifies this`files, this`current, this`branches, this`log
      ensures Valid()
      ensures current == old(current)
      ensures files == WriteAll(old(files), units[..WrittenCount(units, writable)])
      ensures var failure := FirstUnwritable(units, writable);
        && (failure.Some? ==> out == Stopped(WriteFailed(failure.value)))
        && (failure.Some? || !IsNonEmptyString(target) ==> log == old(log) && branches == old(branches))
        && (failure.None? && !IsNonEmptyString(target) ==> out == SplitOnly(|units|))
        && (failure.None? && IsNonEmptyString(target) ==>
              var r := Reconstruct(old(current), old(branches), fromCommitHash, target.value, ListedPaths(listing), files, g);
              out == Reconstructed(r.outcome) && branches == r.branches && log == old(log) + r.issued)
    {
      var failedAt := WritePatches(units, writable);
      if failedAt.Some? {
        return Stopped(WriteFailed(failedAt.value));
      }
      if !IsNonEmptyString(target) {
        return SplitOnly(|units|);
      }
      var diffFilePaths := ListedPaths(listing);
      var result := ApplyChanges(fromCommitHash, target.value, diffFilePaths, g);
      return Reconstructed(result);
    }

    /**
     * `program`: read the checked-out branch, create the two directories,
     * write the aggregate diff, stop on a failed or empty diff, ask the language model
     * for the split, write one patch per unit, and hand the listed patch files
     * to `applyChanges` when a target branch was given.
     */
    method Run(fromCommitHash: string, diffResult: Option<string>, split: Option<seq<CommitUnit>>,
               writable: Path -> bool, target: PromptAnswer, listing: seq<string>, g: Gateway)
      returns (out: RunOutcome)
      requires Valid()
      modifies this
      ensures Valid()
      ensures current == old(current)
      ensures dirs == EnsureFolder(EnsureFolder(old(dirs), old(files), BASE_DIR_NAME), old(files), COMMITS_DIR)
      ensures !out.Reconstructed? ==> branches == old(branches)
      ensures out == Stopped(DiffFailed) <==> diffResult.None?
      ensures out == Stopped(EmptyDiff) <==> diffResult == Some("")
      ensures out == Stopped(SplitFailed) <==> diffResult.Some? && diffResult.value != "" && split.None?
      ensures diffResult.None? ==>
        files == old(files) && log == old(log) + [ShowCurrent] + [Diff(fromCommitHash, AllDiffFileName())]
      ensures diffResult == Some("") ==>
        files == old(files)[AllDiffFileName() := ""] && log == old(log) + [ShowCurrent] + [Diff(fromCommitHash, AllDiffFileName())]
      ensures diffResult.Some? && diffResult.value != "" && split.None? ==>
        && files == old(files)[AllDiffFileName() := diffResult.value]
        && log == old(log) + [ShowCurrent] + [Diff(fromCommitHash, AllDiffFileName())] + [SplitRequest(diffResult.value)]
      ensures diffResult.Some? && diffResult.value != "" && split.Some? ==>
        var units := split.value;
        var failure := FirstUnwritable(units, writable);
        && files == WriteAll(old(files)[AllDiffFileName() := diffResult.value], units[..WrittenCount(units, writable)])
        && (failure.Some? ==> out == Stopped(WriteFailed(failure.value)))
        && (failure.Some? || !IsNonEmptyString(target) ==>
              log == old(log) + [ShowCurrent] + [Diff(fromCommitHash, AllDiffFileName())] + [SplitRequest(diffResult.value)])
        && (failure.None? && !IsNonEmptyString(target) ==> out == SplitOnly(|units|))
        && (failure.None? && IsNonEmptyString(target) ==>
              var r := Reconstruct(old(current), old(branches), fromCommitHash, target.value, ListedPaths(listing), files, g);
              && out == Reconstructed(r.outcome)
              && branches == r.branches
              && log == old(log) + [ShowCurrent] + [Diff(fromCommitHash, AllDiffFileName())] + [SplitRequest(diffResult.value)] + r.issued)
    {
      var shown := ShowCurrentBranch();
      InitializeFolderIfNotExists(BASE_DIR_NAME);
      InitializeFolderIfNotExists(COMMITS_DIR);
      var allDiffFileName := AllDiffFileName();
      log := log + [Diff(fromCommitHash, allDiffFileName)];
      if diffResult.None? {
        return Stopped(DiffFailed);
      }
      files := files[allDiffFileName := diffResult.value];
      var diff := files[allDiffFileName];
      if |diff| == 0 {
        return Stopped(EmptyDiff);
      }
      log := log + [SplitRequest(diff)];
      if split.None? {
        return Stopped(SplitFailed);
      }
      out := SplitAndApply(fromCommitHash, split.value, writable, target, listing, g);
    }
  }
}
