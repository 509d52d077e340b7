/**
 * The repository side of pr-splitter: the external calls the program issues,
 * what git decides about them (only as success or failure), and the branch
 * reconstruction that `applyChanges` performs, as functions of the state it
 * starts from.
 */
module Git {
  import opened Wrappers
  import opened PatchStore

  type Branch = string

  /** A commit on a branch: its message and the patch it records. */
  datatype Commit = Commit(message: string, change: string)

  /** The external calls of the program, logged in the order it issues them. */
  datatype Call =
    | ShowCurrent                       // git branch --show-current
    | Diff(from: string, output: Path)  // git diff <from> --output=<output>
    | SplitRequest(prompt: string)      // the structured-output request to the language model, carrying the diff
    | Switch(ref: string)               // git switch <ref>
    | SwitchCreate(name: Branch)        // git switch -c <name>
    | Apply(path: Path)                 // git apply --staged --patch <path>
    | CommitStaged(message: string)     // git commit -m <message> --no-verify

  /**
   * What git decides and the model does not interpret: whether a patch applies
   * on top of a branch's history, and whether the commit that follows succeeds.
   */
  datatype Gateway = Gateway(applies: (seq<Commit>, string) -> bool, commits: (seq<Commit>, string) -> bool)

  /** Where a reconstruction stopped: at one of the two switches, or at entry `index` of the file list. */
  datatype Failure = SwitchFailed | CreateFailed | ApplyFailed(index: nat) | CommitFailed(index: nat)
  {
    predicate AtEntry()
    {
      ApplyFailed? || CommitFailed?
    }
  }

  /**
   * The result of `applyChanges`: `Aborted` stands for the `process.exit` of
   * its catch block and records how many commits the new branch got.
   */
  datatype ApplyOutcome = Applied(commits: nat) | Aborted(failure: Failure, committed: nat)

  /** The state of the per-file loop: the new branch's history, the failure if any, the calls issued. */
  datatype Replayed = Replayed(history: seq<Commit>, failure: Option<Failure>, issued: seq<Call>)

  /** The branches after `applyChanges`, its outcome and every call it issued. */
  datatype Reconstruction = Reconstruction(branches: map<Branch, seq<Commit>>, outcome: ApplyOutcome, issued: seq<Call>)

  /**
   * The commit message: the template keeps the single quotes around the
   * interpolated file name as literal characters, since execa does not run a shell.
   */
  function CommitMessage(fileName: Path): string
  {
    "'" + fileName + "'"
  }

  /** The file name sits between the two quotes. */
  lemma CommitMessageParts(fileName: Path)
    ensures var m := CommitMessage(fileName);
      |m| == |fileName| + 2 && m[0] == '\'' && m[|m| - 1] == '\'' && m[1..|m| - 1] == fileName
  {
  }

  /** Different files give different commit messages. */
  lemma CommitMessageInjective(a: Path, b: Path)
    ensures CommitMessage(a) == CommitMessage(b) ==> a == b
  {
    CommitMessageParts(a);
    CommitMessageParts(b);
  }

  /** The commits the loop makes when every file applies and commits, in list order. */
  function CommitsFor(paths: seq<Path>, files: map<Path, string>): (r: seq<Commit>)
    requires forall j :: 0 <= j < |paths| ==> paths[j] in files
    ensures |r| == |paths|
    ensures forall j :: 0 <= j < |paths| ==> r[j] == Commit(CommitMessage(paths[j]), files[paths[j]])
    decreases |paths|
  {
    if paths == [] then []
    else
      var p := paths[|paths| - 1];
      CommitsFor(paths[..|paths| - 1], files) + [Commit(CommitMessage(p), files[p])]
  }

  /** The paths handed to `git apply`, in the order of the calls. */
  function AppliedPaths(calls: seq<Call>): seq<Path>
  {
    if calls == [] then []
    else (if calls[0].Apply? then [calls[0].path] else []) + AppliedPaths(calls[1..])
  }

  lemma {:induction false} AppliedPathsConcat(a: seq<Call>, b: seq<Call>)
    ensures AppliedPaths(a + b) == AppliedPaths(a) + AppliedPaths(b)
    decreases |a|
  {
    if a == [] {
      assert a + b == b;
    } else {
      assert (a + b)[0] == a[0];
      assert (a + b)[1..] == a[1..] + b;
      AppliedPathsConcat(a[1..], b);
    }
  }

  /** Calls without a `git apply` contribute no path. */
  lemma {:induction false} AppliedPathsNone(calls: seq<Call>)
    requires forall j :: 0 <= j < |calls| ==> !calls[j].Apply?
    ensures AppliedPaths(calls) == []
    decreases |calls|
  {
    if calls != [] {
      AppliedPathsNone(calls[1..]);
    }
  }

  /**
   * One iteration of the loop on entry `i`, path `p`: `git apply`, then
   * `git commit`; a failure of either ends the loop.
   */
  function Step(prev: Replayed, i: nat, p: Path, files: map<Path, string>, g: Gateway): Replayed
  {
    if !(p in files && g.applies(prev.history, files[p])) then
      Replayed(prev.history, Some(ApplyFailed(i)), prev.issued + [Apply(p)])
    else if !g.commits(prev.history, files[p]) then
      Replayed(prev.history, Some(CommitFailed(i)), prev.issued + [Apply(p), CommitStaged(CommitMessage(p))])
    else
      Replayed(prev.history + [Commit(CommitMessage(p), files[p])], None,
               prev.issued + [Apply(p), CommitStaged(CommitMessage(p))])
  }

  /**
   * The loop over the file list from entry `i` on, in state `prev`; once an
   * entry has failed, the later entries are not touched.
   */
  function ReplayFrom(prev: Replayed, paths: seq<Path>, i: nat, files: map<Path, string>, g: Gateway): (r: Replayed)
    ensures prev.history <= r.history
    ensures prev.issued <= r.issued
    decreases |paths| - i
  {
    if i >= |paths| || prev.failure.Some? then prev
    else ReplayFrom(Step(prev, i, paths[i], files, g), paths, i + 1, files, g)
  }

  /** The whole loop, starting from history `base` with nothing issued. */
  function Replay(base: seq<Commit>, paths: seq<Path>, files: map<Path, string>, g: Gateway): (r: Replayed)
    ensures base <= r.history
  {
    ReplayFrom(Replayed(base, None, []), paths, 0, files, g)
  }

  /** Git takes the patch at `p` on top of history `h`: the file exists, applies, and its commit succeeds. */
  predicate Accepts(g: Gateway, h: seq<Commit>, files: map<Path, string>, p: Path)
  {
    p in files && g.applies(h, files[p]) && g.commits(h, files[p])
  }

  /** The new branch's history when entry `j` is reached: the base and the commits of the entries before it. */
  function HistoryBefore(base: seq<Commit>, paths: seq<Path>, files: map<Path, string>, j: nat): seq<Commit>
    requires j <= |paths| && forall k :: 0 <= k < j ==> paths[k] in files
  {
    base + CommitsFor(paths[..j], files)
  }

  /** Git accepts each of the first `n` entries, each on the history the entries before it left. */
  ghost predicate AcceptedBefore(base: seq<Commit>, paths: seq<Path>, files: map<Path, string>, g: Gateway, n: nat)
    requires n <= |paths|
  {
    && (forall j :: 0 <= j < n ==> paths[j] in files)
    && (forall j :: 0 <= j < n ==> Accepts(g, HistoryBefore(base, paths, files, j), files, paths[j]))
  }

  /**
   * Git accepts the entries before `f.index` and refuses that one: `git apply`
   * for an `ApplyFailed`, `git commit` after a successful apply for a `CommitFailed`.
   */
  ghost predicate RefusedFirst(base: seq<Commit>, paths: seq<Path>, files: map<Path, string>, g: Gateway, f: Failure)
  {
    && f.AtEntry()
    && f.index < |paths|
    && AcceptedBefore(base, paths, files, g, f.index)
    && var h := HistoryBefore(base, paths, files, f.index);
       var p := paths[f.index];
       if f.ApplyFailed? then !(p in files && g.applies(h, files[p]))
       else p in files && g.applies(h, files[p]) && !g.commits(h, files[p])
  }

  /** The loop state after the first `n` entries, all accepted. */
  ghost predicate Progress(base: seq<Commit>, paths: seq<Path>, files: map<Path, string>, g: Gateway, n: nat, r: Replayed)
  {
    && n <= |paths|
    && r.failure.None?
    && AcceptedBefore(base, paths, files, g, n)
    && r.history == HistoryBefore(base, paths, files, n)
    && AppliedPaths(r.issued) == paths[..n]
  }

  /** The facts about the end of the loop on the list `paths`. */
  ghost predicate ReplayFacts(base: seq<Commit>, paths: seq<Path>, files: map<Path, string>, g: Gateway, r: Replayed)
  {
    && (r.failure.None? ==> Progress(base, paths, files, g, |paths|, r))
    && (r.failure.Some? ==>
          && RefusedFirst(base, paths, files, g, r.failure.value)
          && r.history == HistoryBefore(base, paths, files, r.failure.value.index)
          && AppliedPaths(r.issued) == paths[..r.failure.value.index + 1])
  }

  /**
   * What the loop produces: without a failure, git accepted every entry and
   * the history has one commit per entry in list order; with a failure at
   * entry i, git accepted exactly the entries before i and refused entry i,
   * the history has their commits, and no entry after i was handed to `git apply`.
   */
  lemma ReplayShape(base: seq<Commit>, paths: seq<Path>, files: map<Path, string>, g: Gateway)
    ensures ReplayFacts(base, paths, files, g, Replay(base, paths, files, g))
  {
    assert paths[..0] == [];
    ReplayFromShape(base, paths, files, g, 0, Replayed(base, None, []));
  }

  /** From a state reached after `i` accepted entries, the loop ends as `ReplayFacts` says. */
  lemma {:induction false} ReplayFromShape(base: seq<Commit>, paths: seq<Path>, files: map<Path, string>,
                                           g: Gateway, i: nat, prev: Replayed)
    requires Progress(base, paths, files, g, i, prev)
    ensures ReplayFacts(base, paths, files, g, ReplayFrom(prev, paths, i, files, g))
    decreases |paths| - i
  {
    if i < |paths| {
      var next := Step(prev, i, paths[i], files, g);
      assert ReplayFrom(prev, paths, i, files, g) == ReplayFrom(next, paths, i + 1, files, g);
      if next.failure.Some? {
        StepFails(base, paths, files, g, i, prev);
        assert ReplayFrom(next, paths, i + 1, files, g) == next;
      } else {
        StepCommits(base, paths, files, g, i, prev);
        ReplayFromShape(base, paths, files, g, i + 1, next);
      }
    }
  }

  /** An iteration hands exactly its own path to `git apply`. */
  lemma StepIssued(prev: Replayed, i: nat, p: Path, files: map<Path, string>, g: Gateway)
    ensures AppliedPaths(Step(prev, i, p, files, g).issued) == AppliedPaths(prev.issued) + [p]
  {
    var tail := if !(p in files && g.applies(prev.history, files[p])) then [Apply(p)]
                else [Apply(p), CommitStaged(CommitMessage(p))];
    assert Step(prev, i, p, files, g).issued == prev.issued + tail;
    AppliedPathsConcat(prev.issued, tail);
    AppliedPathsNone(tail[1..]);
    assert AppliedPaths(tail) == [p];
  }

  /** A failing iteration on entry `n` ends the loop: git refused entry `n` first. */
  lemma StepFails(base: seq<Commit>, paths: seq<Path>, files: map<Path, string>, g: Gateway, n: nat, prev: Replayed)
    requires n < |paths| && Progress(base, paths, files, g, n, prev)
    requires Step(prev, n, paths[n], files, g).failure.Some?
    ensures ReplayFacts(base, paths, files, g, Step(prev, n, paths[n], files, g))
  {
    StepIssued(prev, n, paths[n], files, g);
    assert paths[..n] + [paths[n]] == paths[..n + 1];
  }

  /** A successful iteration: entry `n` is accepted, and its commit extends the history. */
  lemma StepCommits(base: seq<Commit>, paths: seq<Path>, files: map<Path, string>, g: Gateway, n: nat, prev: Replayed)
    requires n < |paths| && Progress(base, paths, files, g, n, prev)
    requires Step(prev, n, paths[n], files, g).failure.None?
    ensures Progress(base, paths, files, g, n + 1, Step(prev, n, paths[n], files, g))
  {
    StepIssued(prev, n, paths[n], files, g);
    assert paths[..n] + [paths[n]] == paths[..n + 1];
    assert Accepts(g, HistoryBefore(base, paths, files, n), files, paths[n]);
    HistoryBeforeNext(base, paths, files, n);
  }

  /** Reaching entry `n + 1` adds the commit of entry `n` to the history. */
  lemma HistoryBeforeNext(base: seq<Commit>, paths: seq<Path>, files: map<Path, string>, n: nat)
    requires n < |paths| && forall k :: 0 <= k <= n ==> paths[k] in files
    ensures HistoryBefore(base, paths, files, n + 1)
         == HistoryBefore(base, paths, files, n) + [Commit(CommitMessage(paths[n]), files[paths[n]])]
  {
    var q := paths[..n + 1];
    assert q[..|q| - 1] == paths[..n];
    var c := Commit(CommitMessage(paths[n]), files[paths[n]]);
    assert CommitsFor(q, files) == CommitsFor(paths[..n], files) + [c];
    assert base + (CommitsFor(paths[..n], files) + [c]) == base + CommitsFor(paths[..n], files) + [c];
  }

  /**
   * `applyChanges` from the branch `entry` it records on entry: switch to
   * `from`, create `target`, replay the file list, and switch back to `entry`
   * on success and on every failure.
   */
  function Reconstruct(entry: Branch, branches: map<Branch, seq<Commit>>, from: string, target: Branch,
                       names: seq<Path>, files: map<Path, string>, g: Gateway): (r: Reconstruction)
    ensures branches.Keys <= r.branches.Keys <= branches.Keys + {target}
    ensures forall b :: b in branches && b != target ==> r.branches[b] == branches[b]
  {
    if from !in branches then
      Reconstruction(branches, Aborted(SwitchFailed, 0), [ShowCurrent, Switch(from), Switch(entry)])
    else if target in branches then
      Reconstruction(branches, Aborted(CreateFailed, 0), [ShowCurrent, Switch(from), SwitchCreate(target), Switch(entry)])
    else
      var base := branches[from];
      var rep := Replay(base, names, files, g);
      var made := |rep.history| - |base|;
      var outcome := if rep.failure.None? then Applied(made) else Aborted(rep.failure.value, made);
      Reconstruction(branches[target := rep.history], outcome,
                     [ShowCurrent, Switch(from), SwitchCreate(target)] + rep.issued + [Switch(entry)])
  }

  /** The switches around the loop add no path to those the loop applied. */
  lemma IssuedAppliedPaths(entry: Branch, from: string, target: Branch, loop: seq<Call>)
    ensures AppliedPaths([ShowCurrent, Switch(from), SwitchCreate(target)] + loop + [Switch(entry)]) == AppliedPaths(loop)
  {
    var head: seq<Call> := [ShowCurrent, Switch(from), SwitchCreate(target)];
    AppliedPathsConcat(head, loop);
    AppliedPathsConcat(head + loop, [Switch(entry)]);
    AppliedPathsNone(head);
    AppliedPathsNone([Switch(entry)]);
  }

  /** When the branch can be created, the reconstruction is the loop's result with the switches around it. */
  lemma ReconstructCreates(entry: Branch, branches: map<Branch, seq<Commit>>, from: string, target: Branch,
                           names: seq<Path>, files: map<Path, string>, g: Gateway, rep: Replayed)
    requires from in branches && target !in branches
    requires rep == Replay(branches[from], names, files, g)
    ensures var made := |rep.history| - |branches[from]|;
      Reconstruct(entry, branches, from, target, names, files, g)
      == Reconstruction(branches[target := rep.history],
                        if rep.failure.None? then Applied(made) else Aborted(rep.failure.value, made),
                        [ShowCurrent, Switch(from), SwitchCreate(target)] + rep.issued + [Switch(entry)])
  {
  }

  /**
   * Success: git accepted every listed file, each on the history the ones
   * before it left, and the new branch is `from`'s history followed by one
   * commit per file, in list order, each carrying the quoted file name as message.
   */
  lemma ReconstructSuccess(entry: Branch, branches: map<Branch, seq<Commit>>, from: string, target: Branch,
                           names: seq<Path>, files: map<Path, string>, g: Gateway)
    requires Reconstruct(entry, branches, from, target, names, files, g).outcome.Applied?
    ensures from in branches && target !in branches
    ensures AcceptedBefore(branches[from], names, files, g, |names|)
    ensures var r := Reconstruct(entry, branches, from, target, names, files, g);
      && r.branches == branches[target := branches[from] + CommitsFor(names, files)]
      && r.outcome.commits == |names|
      && AppliedPaths(r.issued) == names
  {
    var rep := Replay(branches[from], names, files, g);
    ReplayShape(branches[from], names, files, g);
    IssuedAppliedPaths(entry, from, target, rep.issued);
    assert names[..|names|] == names;
  }

  /**
   * Failure: a failing switch or branch creation leaves every branch as it
   * was; a failure at entry i means git accepted entries 0 .. i-1 and refused
   * entry i, the new branch has `from`'s history and exactly the commits of
   * entries 0 .. i-1, and entries after i are never applied.
   */
  lemma ReconstructFailure(entry: Branch, branches: map<Branch, seq<Commit>>, from: string, target: Branch,
                           names: seq<Path>, files: map<Path, string>, g: Gateway)
    requires Reconstruct(entry, branches, from, target, names, files, g).outcome.Aborted?
    ensures var r := Reconstruct(entry, branches, from, target, names, files, g);
      && (!r.outcome.failure.AtEntry() ==>
            r.branches == branches && r.outcome.committed == 0 && AppliedPaths(r.issued) == [])
      && (r.outcome.failure.AtEntry() ==>
            var i := r.outcome.failure.index;
            && from in branches && target !in branches
            && RefusedFirst(branches[from], names, files, g, r.outcome.failure)
            && r.outcome.committed == i
            && r.branches == branches[target := branches[from] + CommitsFor(names[..i], files)]
            && AppliedPaths(r.issued) == names[..i + 1])
  {
    var r := Reconstruct(entry, branches, from, target, names, files, g);
    if from in branches && target !in branches {
      var rep := Replay(branches[from], names, files, g);
      ReplayShape(branches[from], names, files, g);
      IssuedAppliedPaths(entry, from, target, rep.issued);
    } else {
      AppliedPathsNone(r.issued);
    }
  }

  /** Two refusals that both come first are the same refusal. */
  lemma RefusedFirstUnique(base: seq<Commit>, paths: seq<Path>, files: map<Path, string>, g: Gateway, f: Failure, e: Failure)
    requires RefusedFirst(base, paths, files, g, f) && RefusedFirst(base, paths, files, g, e)
    ensures f == e
  {
    if f.index < e.index {
      assert false;
    } else if e.index < f.index {
      assert false;
    }
  }

  /** A refused entry means git did not accept the whole list. */
  lemma RefusedFirstNotAll(base: seq<Commit>, paths: seq<Path>, files: map<Path, string>, g: Gateway, f: Failure)
    requires RefusedFirst(base, paths, files, g, f)
    ensures !AcceptedBefore(base, paths, files, g, |paths|)
  {
    if AcceptedBefore(base, paths, files, g, |paths|) {
      assert false;
    }
  }

  /**
   * The converse of `ReconstructFailure`: when git accepts the entries before
   * i and refuses entry i, `applyChanges` aborts at entry i with i commits made.
   */
  lemma ReconstructAbortsAtRefusal(entry: Branch, branches: map<Branch, seq<Commit>>, from: string, target: Branch,
                                   names: seq<Path>, files: map<Path, string>, g: Gateway, f: Failure)
    requires from in branches && target !in branches
    requires RefusedFirst(branches[from], names, files, g, f)
    ensures Reconstruct(entry, branches, from, target, names, files, g).outcome == Aborted(f, f.index)
  {
    var rep := Replay(branches[from], names, files, g);
    ReplayShape(branches[from], names, files, g);
    RefusedFirstNotAll(branches[from], names, files, g, f);
    RefusedFirstUnique(branches[from], names, files, g, f, rep.failure.value);
  }

  /** The converse of `ReconstructSuccess`: when git accepts every entry, all of them are committed. */
  lemma ReconstructAppliesAll(entry: Branch, branches: map<Branch, seq<Commit>>, from: string, target: Branch,
                              names: seq<Path>, files: map<Path, string>, g: Gateway)
    requires from in branches && target !in branches
    requires AcceptedBefore(branches[from], names, files, g, |names|)
    ensures Reconstruct(entry, branches, from, target, names, files, g).outcome == Applied(|names|)
  {
    var rep := Replay(branches[from], names, files, g);
    ReplayShape(branches[from], names, files, g);
    if rep.failure.Some? {
      RefusedFirstNotAll(branches[from], names, files, g, rep.failure.value);
    }
  }

  /** On every path, the last call is the switch back to the branch recorded on entry. */
  lemma ReconstructReturnsToEntry(entry: Branch, branches: map<Branch, seq<Commit>>, from: string, target: Branch,
                                  names: seq<Path>, files: map<Path, string>, g: Gateway)
    ensures var r := Reconstruct(entry, branches, from, target, names, files, g);
      |r.issued| >= 3 && r.issued[0] == ShowCurrent && r.issued[1] == Switch(from) && r.issued[|r.issued| - 1] == Switch(entry)
  {
  }

  /**
   * Two patches replayed onto `main` from `feature`: `main-split` gets exactly
   * two commits, in list order, and the last call switches back to `feature`.
   */
  lemma ReconstructTwoUnits(main: seq<Commit>, first: Path, second: Path, files: map<Path, string>, g: Gateway)
    requires first in files && second in files
    requires g.applies(main, files[first]) && g.commits(main, files[first])
    requires var once := main + [Commit(CommitMessage(first), files[first])];
      g.applies(once, files[second]) && g.commits(once, files[second])
    ensures var branches := map["feature" := [], "main" := main];
      var r := Reconstruct("feature", branches, "main", "main-split", [first, second], files, g);
      && r.outcome == Applied(2)
      && r.branches == branches["main-split" := main + [Commit(CommitMessage(first), files[first]),
                                                         Commit(CommitMessage(second), files[second])]]
      && r.issued == [ShowCurrent, Switch("main"), SwitchCreate("main-split"),
                      Apply(first), CommitStaged(CommitMessage(first)),
                      Apply(second), CommitStaged(CommitMessage(second)), Switch("feature")]
  {
    var branches := map["feature" := [], "main" := main];
    var c1 := Commit(CommitMessage(first), files[first]);
    var c2 := Commit(CommitMessage(second), files[second]);
    var s0 := Replayed(main, None, []);
    var s1 := Step(s0, 0, first, files, g);
    assert s1 == Replayed(main + [c1], None, [Apply(first), CommitStaged(CommitMessage(first))]);
    var s2 := Step(s1, 1, second, files, g);
    assert s2 == Replayed(main + [c1] + [c2], None, s1.issued + [Apply(second), CommitStaged(CommitMessage(second))]);
    var paths := [first, second];
    assert ReplayFrom(s2, paths, 2, files, g) == s2;
    assert ReplayFrom(s1, paths, 1, files, g) == ReplayFrom(s2, paths, 2, files, g);
    assert ReplayFrom(s0, paths, 0, files, g) == ReplayFrom(s1, paths, 1, files, g);
    assert main + [c1] + [c2] == main + [c1, c2];
    ReconstructCreates("feature", branches, "main", "main-split", paths, files, g, s2);
  }

  // The branch recorded on entry to `applyChanges`.

  /** A JavaScript value read from a property of a subprocess result. */
  datatype JsValue = Undefined | JsString(s: string)

  /**
   * A successful run of a subprocess through execa: the result carries
   * `stdout` with its final newline stripped; the `message` property exists
   * only on the error thrown for a failed run.
   */
  datatype ExecResult = ExecResult(stdout: string)

  /** Property `message` of a successful result. */
  function MessageProperty(r: ExecResult): JsValue
  {
    Undefined
  }

  /**
   * An interpolation in an execa command template: a string becomes one
   * argument; any other type, `undefined` included, raises a TypeError
   * before a process is started.
   */
  function TemplateArgument(v: JsValue): Option<string>
  {
    match v
    case JsString(s) => Some(s)
    case Undefined => None
  }

  /** The entry branch as the code reads it, from `message`. */
  function EntryBranchAsWritten(shown: ExecResult): JsValue
  {
    MessageProperty(shown)
  }

  /** As written, the switch back can never be built, whatever branch git reports. */
  lemma SwitchBackRefusedAsWritten(shown: ExecResult)
    ensures TemplateArgument(EntryBranchAsWritten(shown)) == None
  {
  }

  /** The entry branch read from `stdout`, the name `git branch --show-current` prints. */
  function EntryBranch(shown: ExecResult): JsValue
  {
    JsString(shown.stdout)
  }

  /** Read from `stdout`, the switch back targets exactly the branch git reported. */
  lemma SwitchBackTargetsEntryBranch(shown: ExecResult)
    ensures TemplateArgument(EntryBranch(shown)) == Some(shown.stdout)
  {
  }

  /**
   * The end of `applyChanges` as written: the branches, the branch left
   * checked out, the calls issued, and whether a switch back was issued.
   */
  datatype AsWrittenEnd = AsWrittenEnd(branches: map<Branch, seq<Commit>>, checkedOut: Branch, issued: seq<Call>,
                                       switchedBack: bool)

  /**
   * `applyChanges` as written, started on branch `entry`. The switch back on
   * the success path and the one in the catch block are both built from the
   * value read from `message`; when that value cannot be interpolated, the
   * command throws before git runs, first inside the `try` and then inside the
   * `catch`, so `process.exit` is not reached and the repository stays where
   * the steps before left it.
   */
  function ApplyChangesAsWritten(entry: Branch, branches: map<Branch, seq<Commit>>, from: string, target: Branch,
                                 names: seq<Path>, files: map<Path, string>, g: Gateway): AsWrittenEnd
  {
    var back := TemplateArgument(EntryBranchAsWritten(ExecResult(entry)));
    var stage :=
      if from !in branches then AsWrittenEnd(branches, entry, [ShowCurrent, Switch(from)], false)
      else if target in branches then AsWrittenEnd(branches, from, [ShowCurrent, Switch(from), SwitchCreate(target)], false)
      else
        var rep := Replay(branches[from], names, files, g);
        AsWrittenEnd(branches[target := rep.history], target, [ShowCurrent, Switch(from), SwitchCreate(target)] + rep.issued, false);
    match back
    case Some(b) => AsWrittenEnd(stage.branches, b, stage.issued + [Switch(b)], true)
    case None => stage
  }

  /**
   * As written, `applyChanges` never switches back: it makes the same branches
   * and calls as the corrected reconstruction except the final switch, and
   * once the target branch is created the run ends with that branch, not the
   * entry branch, checked out.
   */
  lemma ApplyChangesAsWrittenStrands(entry: Branch, branches: map<Branch, seq<Commit>>, from: string, target: Branch,
                                     names: seq<Path>, files: map<Path, string>, g: Gateway)
    requires entry in branches
    ensures var w := ApplyChangesAsWritten(entry, branches, from, target, names, files, g);
      var r := Reconstruct(entry, branches, from, target, names, files, g);
      && !w.switchedBack
      && w.branches == r.branches
      && w.issued + [Switch(entry)] == r.issued
      && (from !in branches ==> w.checkedOut == entry)
      && (from in branches && target in branches ==> w.checkedOut == from)
      && (from in branches && target !in branches ==> w.checkedOut == target && w.checkedOut != entry)
  {
    SwitchBackRefusedAsWritten(ExecResult(entry));
  }
}
