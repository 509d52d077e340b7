# pr-splitter in Dafny

pr-splitter is a command-line tool. It turns the diff between the working tree and a
branch or commit into several smaller commits:

1. It asks for the branch or commit to diff against and writes `git diff` into
   `./pr-splitter/pr-splitter-all-diff.patch`.
2. It gives the diff to a language model that returns a list of
   `{ message, diffFileContent }` units, and writes each unit to
   `./pr-splitter/ai-commits/<message>.patch`.
3. If a target branch name is given, it creates that branch from the diffed
   reference and runs `git apply` and `git commit` on every listed patch in order.
   Afterwards it means to switch back to the branch it started from. As written it
   never does (see Findings).

The model has five modules:

- `RefValidation` (`ref_validation.dfy`) is the validator that the two text prompts
  use. The regular expression `^[\w./-]+$` is a recursive matcher, proved equal to
  "non-empty, and every character is in the class".
- `PatchStore` (`patch_store.dfy`) covers path construction, folder creation and the
  write loop. The write loop is a sequence of map updates on the working directory's
  files.
- `Git` (`git.dfy`) covers the external calls as a log of `Call` values, the branch
  map, and the reconstruction done by `applyChanges` as specification functions
  (`Replay`, `Reconstruct`) with lemmas about them. Whether a patch applies and
  whether a commit succeeds is decided by a `Gateway` oracle that places no
  constraint on either answer. That also covers the program's own choice of flags
  at src/index.ts:34, which git may refuse outright.
- `Pipeline` (`pipeline.dfy`) holds the in-place state: a `Workspace` class, with the
  checked-out branch, the branches, the directories, the files and the call log as
  fields. Its methods are the steps of `program`, proved against the functions above.
  The apply/commit loop is the `while` loop of `CommitEach`, proved equal to `Replay`.
- `Wrappers` (`wrappers.dfy`) holds `Option`.

`process.exit` and failing effects become outcome values:

- `Stopped` for the early exits of `program`;
- `SplitOnly` when no target branch is given;
- `Aborted` for the catch block of `applyChanges`, recording the failing step and
  how many commits were made.

Three behaviours of the code are worth stating up front:

- Units that share a message write the same file, and the last one wins
  (`PatchStore.WriteAllLastWins`).
- The validator refuses an empty target name (`RefValidation.Validate`). So only a
  cancelled prompt reaches the skip at src/index.ts:222; a cancel is a value that is
  not a string (`Pipeline.ValidatedAnswerPassesGate`).
- As written, the switch back fails (see Findings). `Git.ApplyChangesAsWritten`
  models that end. The rest of the model uses the `stdout` reading.

## Model

| member | source | states |
|---|---|---|
| RefValidation.MatchesRefPatternIff | src/index.ts:13 | the anchored pattern `^[\w./-]+$` matches a string exactly when it is non-empty and every character is an ASCII letter, digit, `_`, `.`, `/` or `-` |
| RefValidation.Validate | src/index.ts:11-16 | an empty value gives the "Please enter a branch name/ commit hash" message; a non-empty value with a character outside the class gives the "valid" message; the value is accepted exactly when it is non-empty and made of class characters |
| PatchStore.DiffFileNameParts | src/index.ts:52-54 | a patch path is `./pr-splitter/ai-commits/`, then the message, then `.patch`, so the message can be read back from between the two |
| PatchStore.DiffFileNameInjective | src/index.ts:52-54 | different messages give different patch paths |
| PatchStore.AllDiffFileNameIsNoPatchPath | src/index.ts:52-58 | the aggregate diff path equals no patch path and does not lie in the per-commit directory, so no patch path string equals it (a message containing `..` can still name the same file, see Left out) |
| PatchStore.ListedPathIsPatchPath | src/index.ts:227-229 | a listed entry's path is one of the written patch paths exactly when the entry's name is one of the units' messages followed by `.patch` |
| PatchStore.ListedPatchFile | src/index.ts:227-229 | the listing entry `<message>.patch` maps back to the path that the message's patch was written to |
| PatchStore.EnsureFolder | src/index.ts:60-64 | afterwards something exists at the path; a directory is added only when nothing was there, and nothing else changes |
| PatchStore.EnsureFolderIdempotent | src/index.ts:60-64 | initialising the same folder twice is the same as initialising it once |
| PatchStore.WriteAll | src/index.ts:188-202 | the files after the loop are the old files plus exactly one patch path per unit's message |
| PatchStore.LastIndexOf | src/index.ts:188 | the position of the last unit with a given message; no later unit has that message |
| PatchStore.WriteAllLastWins | src/index.ts:188-202 | each message's patch file holds the content of the last unit with that message: duplicates overwrite earlier ones |
| PatchStore.WriteAllKeepsOthers | src/index.ts:188-202 | a file that no unit writes, such as the aggregate diff, keeps its content |
| PatchStore.PatchPathsCount | src/index.ts:190 | there are as many patch paths as distinct messages |
| PatchStore.WrittenFileCount | src/index.ts:188-202 | into a directory holding no patch files, the loop adds exactly one file per distinct message |
| PatchStore.FirstUnwritable | src/index.ts:191-199 | the first unit whose write fails, if any; every unit before it was writable |
| PatchStore.WrittenCount | src/index.ts:188-202 | the loop gets through every unit before the first failed write, and stops at that one |
| Git.CommitMessageParts | src/index.ts:35 | the commit message is the file name between two literal single quotes |
| Git.CommitMessageInjective | src/index.ts:35 | different patch files get different commit messages |
| Git.CommitsFor | src/index.ts:32-36 | one commit per file, in list order, carrying the quoted file name and the file's content |
| Git.ReplayFrom | src/index.ts:32-36 | continuing the loop only extends the history and the call log |
| Git.Replay | src/index.ts:32-36 | the loop never removes commits from the base history |
| Git.ReplayShape | src/index.ts:32-36 | without a failure, git accepted every file, each on the history the files before it left (`AcceptedBefore`); the history is the base plus the commits of all files, and every file was applied in order. With a failure at entry i, git accepted entries 0..i-1 and refused entry i (`RefusedFirst`: `git apply` for `ApplyFailed`, `git commit` after a successful apply for `CommitFailed`); the history gets exactly the commits of entries before i, and nothing after entry i was applied |
| Git.Reconstruct | src/index.ts:18-47 | applyChanges as a function: only the target branch can be added or changed; every other branch keeps its history |
| Git.ReconstructSuccess | src/index.ts:28-39 | on success, the source branch existed, the target did not, git accepted every listed file in turn, and the target now holds the source history followed by one commit per listed file, in order |
| Git.ReconstructAppliesAll | src/index.ts:32-39 | the converse: when git accepts every listed file in turn, the outcome is success with one commit per file |
| Git.ReconstructFailure | src/index.ts:40-46 | a failed switch or branch creation changes no branch and applies nothing; a failure at entry i means git accepted entries 0..i-1 and refused entry i, leaves the target with the commits of entries 0..i-1, and reports i as the committed count |
| Git.RefusedFirstUnique | src/index.ts:32-36 | there is only one first refusal: two refusals that each come after only accepted entries are the same |
| Git.ReconstructAbortsAtRefusal | src/index.ts:32-46 | the converse of the failure case: when git accepts entries 0..i-1 and refuses entry i, the outcome is an abort at entry i with i commits made |
| Git.ReconstructReturnsToEntry | src/index.ts:27-41 | every path starts by reading the current branch and switching to the source, and ends by switching back to the recorded branch |
| Git.ReconstructTwoUnits | src/index.ts:18-47 | two patches replayed from `feature` onto `main` give `main-split` exactly two commits, in order, with the exact call sequence ending in `git switch feature` |
| Git.SwitchBackRefusedAsWritten | src/index.ts:27 | as written, the entry branch is read from `message`, which is undefined, so the switch-back command cannot be built |
| Git.ApplyChangesAsWrittenStrands | src/index.ts:27-46 | as written, `applyChanges` issues no switch back: it makes the same branches and calls as `Reconstruct` but for the final `git switch`. It ends on the entry branch when the first switch fails, on `from` when the branch creation fails, and otherwise on the new target branch, which is not the entry branch |
| Git.SwitchBackTargetsEntryBranch | src/index.ts:27 | read from `stdout`, the switch back targets exactly the branch that git reported |
| Pipeline.ValidatedAnswerPassesGate | src/index.ts:208-222 | a target answer the validator accepted always passes the non-empty-string gate, so an answer that fails the gate is a cancel |
| Pipeline.ListedPatchesWritten | src/index.ts:227-229 | a listing whose i-th name is `messages[i] + ".patch"`, for messages the write loop wrote, gives in listing order the patch path of each message, and each of those paths holds a written file |
| Pipeline.CommitEach | src/index.ts:32-36 | the loop's final history, failure and issued calls equal `Replay` of the file list |
| Pipeline.Workspace.ShowCurrentBranch | src/index.ts:70-77 | reports the checked-out branch and logs the call |
| Pipeline.Workspace.InitializeFolderIfNotExists | src/index.ts:60-64 | the directories become `EnsureFolder` of the old ones |
| Pipeline.Workspace.WritePatches | src/index.ts:188-202 | reports the first unit whose write fails, and leaves exactly the writes of the units before it (all units if none fails) |
| Pipeline.Workspace.ApplyChanges | src/index.ts:18-47 | the branches, the outcome and the appended calls are those of `Reconstruct` from the checked-out branch; the checked-out branch is the same afterwards |
| Pipeline.Workspace.SplitAndApply | src/index.ts:188-245 | writes the patches; stops at a failed write; without a non-empty target it changes no branch and reports the number of units; otherwise the branches, log and outcome are `Reconstruct` of the listed paths |
| Pipeline.Workspace.Run | src/index.ts:66-250 | both folders are initialised; it stops with `DiffFailed` exactly when git diff fails, `EmptyDiff` exactly when the diff is empty, and `SplitFailed` exactly when the language model fails; the files, the log and the branches are given exactly on each of these paths (including a failed split) and on the write and reconstruction paths; only the reconstruction path changes a branch, and the run ends on the branch it started on |

## Left out

- Git itself is not modelled. Branches are sequences of commits. `git switch <ref>`
  succeeds exactly when the ref is a local branch. Without `--detach`, git refuses
  to switch to a commit hash. So a commit hash entered at the first prompt
  (src/index.ts:89) always ends in `SwitchFailed`, in the model as in the program. A
  remote branch name that git would turn into a new tracking branch is not
  modelled. In the model `git switch -c` fails exactly when the branch exists (git also refuses some names, see the next line). Whether `git apply` and `git commit` succeed is an oracle
  (`Gateway`) over the branch history and the patch content. Staging, the index and
  the working tree are not modelled.
- Git.Reconstruct: ignores git's ref-name rules and switches refused over
  uncommitted changes. The validator's class lets through target names git refuses
  to create, such as `a..b`, `x.lock`, `-x`, `HEAD`, or a name ending in `/` or
  `.`. The tool also runs with uncommitted changes in the working tree, which can
  make git refuse a switch. For those inputs the program gets `CreateFailed` or
  `SwitchFailed` at src/index.ts:29-30, while the model creates the branch or
  switches: `Git.ReconstructAppliesAll` and `Git.ReconstructAbortsAtRefusal` hold
  only of runs where git accepts the name and the switch.
- `git diff` and reading its output file are one input: the diff text, or a failure.
  Reading the file back after `git diff` writes it is assumed to give the same text.
- The language model is an input: a list of units, or a failure. An answer that does
  not fit the schema at src/index.ts:151-158 makes `generateObject` throw into the
  catch at src/index.ts:172-176, which is the failure case of this input. What the
  system prompt asks for, such as the units' diffs together making up the aggregate
  diff, is not claimed.
- The prompts, spinners, console output and `console.clear` are left out. The
  reference to diff from is a parameter, since it comes from a prompt whose default
  value is not modelled. A cancelled first prompt is not modelled either. Its
  `onCancel` handler (src/index.ts:97-100) only prints a message and discards the
  failure value it builds. The value the run then goes on with comes from the prompt
  library, which is not part of this model; where it is a string, the reference
  parameter of `Run` covers that run. The target branch answer is a parameter: text or a cancel.
- `program` also reads the current branch from `message` (src/index.ts:70). There it
  only feeds the prompt's default value, which is not modelled. The call is logged.
- `fs.existsSync`, `mkdirSync`, `writeFile` and `readdirSync` act on a model of the
  working directory:
  - a set of directories and a map from path to file content;
  - path aliasing (`pr-splitter` versus `./pr-splitter`, or a message containing
    `..` such as `../pr-splitter-all-diff`, whose patch path names the aggregate diff
    file) and nested directories are not modelled: paths are compared as strings;
  - `mkdirSync` never fails;
  - a write's success is a predicate on the path;
  - `readdirSync`'s result is an arbitrary list of names, since its order and
    contents depend on the file system.
- `process.exit(0)`, the Effect failures and the defect handler become the
  `Stopped`, `SplitOnly` and `Aborted` outcomes. Exit codes and console output are
  left out.
- Pipeline.Workspace.ShowCurrentBranch: cannot fail. A failing
  `git branch --show-current` stops the run at src/index.ts:70-77; that stop is not
  modelled.
- The `Workspace` methods require `Valid()`: the checked-out branch is one of the
  branches. This leaves out a start on a detached HEAD, where
  `git branch --show-current` prints an empty string.
- Git.ReconstructFailure: does not model a failure of the switch back itself inside
  the catch block. That failure is the subject of the Finding. With the corrected
  reading, the switch back is assumed to succeed, since it targets the branch that
  was checked out.
- Pipeline.Workspace.Run: says nothing about the patch files' content beyond what
  `WriteAll` states. It states no relation between the listed names and the written
  patches, because the listing is an input.

## Findings

| source | as written | input that shows it | evidently intended | confidence | as-written member | corrected member |
|---|---|---|---|---|---|---|
| src/index.ts:27 | `applyChanges` records the current branch from the `message` property of the successful `git branch --show-current` result. execa sets that property only on errors, so the value is `undefined`. The switch back at lines 39 and 41 then interpolates `undefined`, which execa rejects with a TypeError, first inside the `try` and again inside the `catch`. So `process.exit` is never reached, the run ends as a defect, and the repository stays on the new branch. | any run that reaches `applyChanges`, for example one where `git branch --show-current` prints `feature` | read `stdout`, so that the switch back targets `feature` | not executed; follows from execa's documented result fields | Git.ApplyChangesAsWrittenStrands | Git.ReconstructReturnsToEntry |
