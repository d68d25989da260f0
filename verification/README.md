# innsegl: the client-side protocols, modelled and proved

innsegl signs the commits an agent makes, and keeps a repository, a
configuration and a set of services in a state its operator can rely on. This
project models the parts of it that hold state or make a promise over time, and
proves the promises for every input, every interleaving and every run.

| file | what it models |
|---|---|
| `Signature.dfy` | the three tests for "this commit is signed", compared on every text |
| `GitRecord.dfy` | what git prints for a commit, and what the backstop makes of it |
| `CommitGraph.dfy`, `GitView.dfy` | commits, and a repository as git reads it, replaced objects and grafts included |
| `RefBackstop.dfy`, `RefHistory.dfy` | the reference-transaction hook, and whole runs of a repository under it |
| `LinearRange.dfy`, `Resign.dfy` | `innsegl resign`: the range, the rebase, the result |
| `FileRights.dfy` | "the user cannot change this file", over every run of the user's moves |
| `ShellQuoting.dfy`, `HookScript.dfy`, `HookRun.dfy` | the generated git hooks, reading the binary back out of them, and what a shell does when git runs them |
| `HookInstaller.dfy`, `HooksDirectory.dfy` | `innsegl link` and `link -remove`, file operation by file operation |
| `TokenBucket.dfy` | the limiter per machine, equal to a sliding window |
| `ConfigRecorder.dfy`, `GitConfig.dfy` | recording, applying and undoing git's signing configuration |
| `KeyFile.dfy` | replicas publishing one message key file |
| `SchemaCutover.dfy` | `migrate-schema` runs and other writers on one chain |
| `CodexConfig.dfy`, `CodexNulls.dfy` | containment of configurations after normalisation |
| `CommandGuard.dfy` | quotes stripped before a command is judged |
| `InputHash.dfy`, `DirectoryWalk.dfy` | `compose-up.py`: the content label, and the walk over a directory that feeds it |
| `ServiceClosure.dfy`, `ComposeWait.dfy` | `compose-up.py`: the covered services, the wait |
| `Text.dfy`, `Options.dfy` | lines, fields, searching, and a value that may be missing |

Code that changes things is a class or a loop proved against a function of the
state before it; everything else is functions and lemmas. Each file is one
module. `dafny verify dfyconfig.toml` checks the whole project.

## What the proofs rest on

- A commit is the finite tree of what it names, so two commits with one id are
  one commit. Object ids do not collide.
- git lists a range in any order with parents first; a rebase replays and signs
  each commit, or drops it, or stops.
- `rev-list --header` prints a commit up to its first NUL: the header lines as
  they are, a blank line, and the message indented by four spaces. With no
  message, blanks at the end of the header are gone. What is behind the blank
  line may be anything. A commit in an encoding git converts is out, and so is a
  repository that sets `i18n.logOutputEncoding` or `i18n.commitEncoding`.
- Each ref transaction of an agent's runs the hook, and the operator's do not.
  Refs change in no other way: no branch is a symbolic ref, so none changes with
  another ref, and no file of the repository is written by hand. Ref names are
  told apart character by character, letter case included.
- git asks of a ref name that it holds no ASCII space and no control character;
  no more is asked here. Text is taken as characters, and a byte that is no
  UTF-8 as a character that is no space.
- git reads an object through the refs under `refs/replace/`, and its parents
  through a graft file or a shallow boundary, and it walks what it reads. All
  of these are part of the repository here. `GIT_REPLACE_REF_BASE` is unset, and
  a commit-graph file, where there is one, says what the objects say. rev-list
  may fail for any id, and it fails where it would list a commit that is
  replaced deeper than git looks. For `resign`
  nothing stands in for a commit: its ranges are those of the commit graph.
- In the filesystem any group-write bit counts as the user's, and the user is
  not root. A move needs write permission and no search permission: the user is
  taken to hold every directory open already.
- A file operation of `link` that fails is an input, hook by hook: the move, the
  write after any number of bytes, the removal, the restoring.
- A file that is created gets the mode it is asked for, whatever the umask; one
  that is written over keeps its own.
- The hook scripts are read by the rules of the POSIX Shell Command Language, for
  the constructs they are made of; which programs there are, and how each ends,
  are inputs.
- The limiter's tokens are scaled by the refill time, so that every quantity is
  an exact integer. Its equality with the window holds for any call times.
- Signing keys hold one value each. A configuration write is whole or not done.
- The hash of a mount is any function with 32-byte digests; what it must not do
  is collide on the bytes it was given.
- Docker's reports and the clock are inputs. The clock does not go back, and a
  sleep of one second lasts at least that long.
- Regular expressions are inputs: any predicate on the stripped command.

## Where the code and its own words differ

Each is a lemma at an input that shows it, and a theorem that says exactly when
the promise is kept.

- `hasSignatureHeader` is documented as reading a record every line of which is
  indented. git indents the message only, and the test strips four spaces from
  header lines too. `TakenAsSignedIff` names the headers it misreads or misses,
  and `MisreadText` is a commit git holds whose header is misread;
  `BareSignatureMissed` is one that is missed. The hook looks
  at branches only, so a ref under `refs/replace/` is set unchecked, and rev-list
  then reads something else for a commit: `ReplacedRun`. And the hook splits git's
  lines at every space Unicode knows, while git forbids only the ASCII one in a
  ref name, so a branch whose name holds another in front of a character is never
  looked at: `CheckedIff`, `SpacedRun`. `PromiseIff` says that the backstop's
  promise holds over every run of a class exactly when all its commits are
  signed, or none has a misread header, nothing stands in for a commit the hook
  walks (`Straight`) and every branch is one word to it (`Unbroken`).
  `EveryBranchCommitAccounted` says, for any run and any commit, which of the
  three let it in.
- `runLinkInstall` says that a refusal leaves the repository exactly as it was.
  A hook that cannot be read, moved or written is met only by the second loop,
  after hooks before it were written: `LaterHookIsNotChecked`,
  `RefusalKeepsAllIff`.
- A hook must be executable, and a file already there keeps its mode when it is
  written over: `HooksCanRunIff` says when all three can be run.
- A hook write cut off before the marker leaves a fragment both commands take for
  the user's hook. `RecoversIff` says for every state it can be cut off in what
  comes of it. Where a hook is set aside it is a conflict, and `StuckForever` says
  that both leave it so. Where none is, a link sets the fragment aside and a
  removal puts it back, and `FragmentForever` says that it is never gone.
- `undo`, cut off between two keys and run again, reads "nothing recorded" and
  unsets a key that had a value: `SecondUndoLoses`, `InterruptedUndoIff`.
- `writeMessageKeyFile` refuses a different key it reads, but two replicas that
  both read nothing each publish theirs: `DifferentKeysOverwrite`,
  `NeverChangesIff`. And a restart is not always safe: `AbandonedAtFirst`,
  `NeverPublishedIff`.
- A wanted null matches an absent field, so containment is not transitive:
  `NotTransitive`, `CarriesOverIff`. A configuration that only grew can be
  refused: `EnlargedIsRefused`, `StaysAcceptedIff`.
- A `migrate-schema` success may name a position that separates nothing:
  `DisturbedRun`, `FreshSuccessIff`.
- `wait_up` answers 0 when each service was up once, not all of them together:
  `NotAllAtOnce`, `TogetherIff`.
- The label of a directory does not see links to directories, nor directories
  that hold nothing it meets: `UnseenIff`, `WalkTellsIff`.
- A failed `resign` reports that the branch is back. The refs are; HEAD is on the
  branch exactly when the rebase had not begun or was aborted: `StopsOnBranch`,
  `Resign.Worktree.Run`.

## Model

| member | source | states |
|---|---|---|
| `Signature.HasSignatureHeader` | cmd/innsegl/hookreftx.go:144-155 | true exactly when a signature line stands before the first blank line of the record with its indentation taken off |
| `Signature.SignedByHeader` | cmd/innsegl/resign.go:220-228 | what signed means: a line begins with "gpgsig " or "gpgsig-sha256 ", and no line up to it is blank |
| `Signature.CommitIsSigned` | cmd/innsegl/resign.go:220-228 | true exactly when a signature line stands before the first empty line pair |
| `Signature.RawIsSigned` | cmd/innsegl/resign.go:220-228 | with a first line that is not blank, the raw test is the meaning of signed |
| `Signature.RawAgreesIff` | cmd/innsegl/resign.go:220-228 | the raw test and the meaning differ exactly on a newline followed by a text that would be signed |
| `Signature.IndentedIsSigned` | cmd/innsegl/hookreftx.go:141-155 | on a rendering with every line indented, as the comment has it, the backstop's test is the meaning of signed |
| `Signature.BackstopAgreesWithResign` | cmd/innsegl/hookreftx.go:141-155 | on that rendering the backstop's test and resign's agree on every text whose first line is not blank |
| `Signature.PostCommitVersusRaw` | cmd/innsegl/mirrorpush.go:93-96 | the post-commit test implies resign's; they differ exactly when every signature line is gpgsig-sha256 or the first line |
| `GitRecord.ShownIsTaken` | cmd/innsegl/hookreftx.go:118-155 | whatever git prints behind the header, the test's answer depends on the header lines printed alone |
| `GitRecord.PrintedLines` | cmd/innsegl/hookreftx.go:118-128 | what is printed of a header is its own lines, in place, or cuts of them |
| `GitRecord.PrintedBack` | cmd/innsegl/hookreftx.go:118-128 | every commit can be printed in this form |
| `GitRecord.TakenAsSignedIff` | cmd/innsegl/hookreftx.go:141-155 | exactly which unsigned commits the backstop takes as signed, which signed ones it misses, and that on every other text its answer is the meaning of signed |
| `GitRecord.PlainIsExact` | cmd/innsegl/hookreftx.go:141-155 | with no header line indented by four spaces, no NUL and no blank end, the answer is the meaning of signed |
| `GitRecord.BackstopVersusResign` | cmd/innsegl/hookreftx.go:141-155 | on what git prints, the backstop's test and resign's agree on a commit exactly when its header is neither misread nor missed |
| `GitRecord.MisreadHeader` | cmd/innsegl/hookreftx.go:146-153 | whatever header lines are around it, a signature line behind four spaces makes an unsigned commit one the test takes as signed |
| `GitRecord.MisreadText` | cmd/innsegl/hookreftx.go:146-153 | such a commit with any tree, author and committer |
| `GitRecord.BareSignatureMissed` | cmd/innsegl/hookreftx.go:118-155 | with no message and a bare "gpgsig " as the last header line, whatever is before it, a signed commit is one the test takes as unsigned |
| `GitRecord.BlanksGone` | cmd/innsegl/hookreftx.go:118-128 | spaces, tabs and carriage returns are what git takes off there |
| `GitView.NewCommitsAll` | cmd/innsegl/hookreftx.go:114-120 | the commits listed for an id are all that git's walk meets from it and from no branch, tag or remote ref |
| `GitView.ChainRead` | cmd/innsegl/hookreftx.go:114-125 | git reads the end of a chain of up to four replacements, and fails on one of five |
| `GitView.StraightWalk` | cmd/innsegl/hookreftx.go:114-120 | with nothing standing in below a commit, the walk from it is the commit graph |
| `GitView.StraightNew` | cmd/innsegl/hookreftx.go:114-120 | with nothing standing in for a commit the update or a ref under refs/heads/, refs/tags/ or refs/remotes/ reaches, the list is what the update makes reachable and no such ref reached |
| `RefBackstop.CanPrint` | cmd/innsegl/hookreftx.go:118-128 | every repository has an output for every set of commits git can read |
| `RefBackstop.AnsweredReadable` | cmd/innsegl/hookreftx.go:118-125 | an answer means that git could read every commit it lists |
| `RefBackstop.ParseUnsigned` | cmd/innsegl/hookreftx.go:126-139 | the ids of the records that carry no signature, in order |
| `RefBackstop.RenderExact` | cmd/innsegl/hookreftx.go:118-139 | the ids named are those of the commits taken as unsigned, in git's order, whatever bytes the commits hold |
| `RefBackstop.NamedByRecords` | cmd/innsegl/hookreftx.go:118-139 | those ids name every new commit taken as unsigned and nothing else |
| `RefBackstop.UnsignedNewCommits` | cmd/innsegl/hookreftx.go:118-139 | names exactly the new commits taken as unsigned, however git reads, prints and orders them; an error exactly when rev-list fails |
| `RefBackstop.CleanMeans` | cmd/innsegl/hookreftx.go:118-155 | what an empty answer says of the texts git reads for the commits: each signed and not missed, or misread; with plain headers, each signed |
| `RefBackstop.ZeroIsNull` | cmd/innsegl/hookreftx.go:42-46 | the test for a ref that does not exist holds exactly of git's own id for one: zeros alone, and not the empty text |
| `RefBackstop.RelevantLines` | cmd/innsegl/hookreftx.go:86-93 | a line is acted on exactly with three fields, the last under refs/heads/, the middle one not all zeros |
| `RefBackstop.ReadUpdates` | cmd/innsegl/hookreftx.go:84-104 | the new ids of the branch updates among git's lines |
| `RefBackstop.NewIdsAdmit` | cmd/innsegl/hookreftx.go:84-112 | checking those ids one by one is checking the whole transaction |
| `RefBackstop.ReferenceTransaction` | cmd/innsegl/hookreftx.go:78-112 | the exit code, loop by loop; without its own tests: 1 exactly when the state is prepared, CLAUDECODE or INNSEGL_TOOL_USE_ID is set to something, and the input could not be read or a line of three fields moves a ref under refs/heads/ to an id that is not all zeros, which rev-list does not answer for or which adds a commit not taken as signed |
| `RefBackstop.VerdictIff` | cmd/innsegl/hookreftx.go:78-112 | the two loops stand for a verdict over all the updates |
| `RefBackstop.OrderIndependent` | cmd/innsegl/hookreftx.go:78-112 | the exit code does not depend on the order of the lines |
| `RefHistory.LineFields` | cmd/innsegl/hookreftx.go:84-92 | the hook reads back the old id and the new id git printed, and the ref in as many fields as it has words |
| `Text.SpacesAre` | cmd/innsegl/hookreftx.go:88 | the twenty-five characters Go splits a line at |
| `RefHistory.RelevantIff` | cmd/innsegl/hookreftx.go:88-92 | which updates the hook acts on, for any ref name git takes |
| `RefHistory.CheckedIff` | cmd/innsegl/hookreftx.go:88-92 | the hook passes over a branch update exactly when git deletes the branch by it, or a space, as Go counts them, stands in the name in front of another character |
| `RefHistory.AdmitsUpdates` | cmd/innsegl/hookreftx.go:78-112 | the verdict on git's lines, said about the updates: every one the hook acts on passes |
| `RefHistory.EveryBranchCommitAccounted` | cmd/innsegl/hookreftx.go:17-34 | over every run of agent, operator, store and graft steps on any refs, each commit a branch reaches is signed, or misread, or was reachable from an initial ref, an operator's value, or a tag or remote ref, or came in by an update judged while something stood in for a commit the hook walked, or by one on a branch whose name is more than one word |
| `RefHistory.PromiseIff` | cmd/innsegl/hookreftx.go:17-34 | without the three exceptions of the hook's own, it holds over every run on commits of given texts exactly when all of them are signed, or nothing stands in, every branch is one word and none of them is misread |
| `RefHistory.MisreadRun` | cmd/innsegl/hookreftx.go:17-34 | for each misread text, a run with nothing standing in that puts it on a branch of one word |
| `RefHistory.SpacedRun` | cmd/innsegl/hookreftx.go:88-92 | for each unsigned text and each branch name of more than one word, a run with nothing standing in that puts it there |
| `RefHistory.NotCheckedAdmitted` | cmd/innsegl/hookreftx.go:88-112 | an update the hook does not act on is admitted, whatever it adds |
| `RefHistory.ReplacedRun` | cmd/innsegl/hookreftx.go:84-120 | for each unsigned text, a run that sets a replace ref and then puts it on a branch of one word |
| `RefHistory.AllSignedForever` | cmd/innsegl/hookreftx.go:17-34 | with no operator step, nothing standing in, every branch one word, no misread commit and nothing unsigned behind initial, tag or remote refs, no branch ever reaches an unsigned commit |
| `RefHistory.RunClosed` | cmd/innsegl/hookreftx.go:78-139 | over every run ids stay unique and parents, refs and grafts stay in the store, so the hook can always be run |
| `RefHistory.AllOrNothing` | cmd/innsegl/hookreftx.go:78-112 | one update the hook acts on that does not pass and no ref moves; otherwise every ref has the value of the last update that names it, and the others theirs; when anything moves, every branch of one word that is set to an id not all zeros had its check passed |
| `LinearRange.ListingIsChain` | cmd/innsegl/resign.go:133-149 | every listing of a range without merges is one parent chain that ends at HEAD |
| `LinearRange.ListingUnique` | cmd/innsegl/resign.go:133-149 | such a range has one listing |
| `LinearRange.StandsOnBaseIff` | cmd/innsegl/resign.go:181-190 | the chain stands on base itself exactly when base is an ancestor of HEAD |
| `LinearRange.CutRange` | cmd/innsegl/resign.go:186-190 | cut at any commit, the chain's two parts are the ranges before and after the cut |
| `LinearRange.LinkedRange` | cmd/innsegl/resign.go:199-203 | a chain on top of base or of the range adds exactly its own commits to the range |
| `LinearRange.ExtendRange` | cmd/innsegl/resign.go:186-203 | what is kept with a new chain on top is exactly the new range, and its one listing |
| `Resign.RevListTopo` | cmd/innsegl/resign.go:133-137 | lists the set, each commit once and after its parents |
| `Resign.FirstUnsigned` | cmd/innsegl/resign.go:159-169 | the index of the first commit without a signature, or -1 with none |
| `Resign.PublishedIs` | cmd/innsegl/resign.go:149-157 | published means reached from a ref under refs/tags/ or refs/remotes/ |
| `Resign.BranchPublishesNothing` | cmd/innsegl/resign.go:149-157 | moving a branch publishes nothing |
| `Resign.ReplayLength` | cmd/innsegl/resign.go:199-209 | the count stays the same exactly when no commit was dropped |
| `Resign.ReplayAt` | cmd/innsegl/resign.go:199-215 | each replayed commit carries its own commit's new text |
| `Resign.RebaseExec` | cmd/innsegl/resign.go:186-209 | the commits before the first unsigned one are kept identical, the rest are signed in order, and the range comes out short exactly when one was dropped |
| `Resign.Worktree.CheckRange` | cmd/innsegl/resign.go:133-180 | refuses exactly for a merge, a published commit, or a commit to sign and no binary to sign with |
| `Resign.Worktree.Rebase` | cmd/innsegl/resign.go:181-210 | moves the one branch to the re-signed chain, or reports failure; a stopped rebase leaves every ref, and HEAD on its branch exactly when it had not begun or was aborted |
| `Resign.Worktree.RunRange` | cmd/innsegl/resign.go:133-216 | refuses exactly when base..HEAD holds a merge, a commit a tag or remote-tracking branch reaches, or an unsigned one and there is no binary; after a success neither reaches a commit it replaced |
| `Resign.Worktree.Run` | cmd/innsegl/resign.go:104-216 | the whole command: 33 exactly outside an agent, off a branch, for ends that are no commits or not the tip, with uncommitted changes, or for a merge, a commit a tag or remote-tracking branch reaches, or a commit to sign and no binary; 33 changes nothing, 0 signs every commit of base..HEAD and replaces none that a tag or remote-tracking branch reaches, and 34 leaves what it says |
| `Resign.StopsOnBranch` | cmd/innsegl/resign.go:191-198 | one unsigned commit on a branch, however the rebase stops: the branch is back, and HEAD is on it exactly when it had not begun or was aborted |
| `Resign.SameSizeIff` | cmd/innsegl/resign.go:149-157 | comparing the two counts is asking whether the range holds a published commit |
| `Resign.ResignPassesBackstop` | cmd/innsegl/resign.go:181-215 | with nothing standing in for a commit it walks, the ref backstop admits the branch update a re-signing makes exactly when it misses none of the new signatures |
| `FileRights.UserWritable` | cmd/innsegl/doctorrights.go:287-313 | empty exactly when every level is safe; otherwise the reason of the deepest level that is not |
| `FileRights.SafeInodeKept` | cmd/innsegl/doctorrights.go:287-313 | no move of the user's changes a safe inode's owner, mode or kind, or a safe file's bytes |
| `FileRights.SafeEntryKept` | cmd/innsegl/doctorrights.go:287-313 | nor which safe inode an entry of a safe directory names, sticky directories included |
| `FileRights.StepKeepsSafe` | cmd/innsegl/doctorrights.go:287-313 | one move keeps the path, its inodes, its bytes and its safety |
| `FileRights.SafeForever` | cmd/innsegl/doctorrights.go:287-313 | so does every run of moves |
| `FileRights.UnsafeCanChange` | cmd/innsegl/doctorrights.go:287-313 | for a file the answer calls writable, a run of the user's moves that changes it |
| `FileRights.AnswerIsExact` | cmd/innsegl/doctorrights.go:287-313 | the answer is empty exactly when no run of moves changes what the path names or the file holds |
| `ShellQuoting.ParseSingleQuoted` | cmd/innsegl/doctorrights.go:180-200 | the loop reads the quoted word its specification reads, and its length |
| `ShellQuoting.QuoteRoundTrip` | cmd/innsegl/link.go:172-174 | a quoted word reads back as itself, whatever quotes it holds, and takes exactly its own length |
| `ShellQuoting.ShellReadsQuoted` | cmd/innsegl/link.go:164-174 | a shell following sections 2.2.1 and 2.2.2 of the POSIX Shell Command Language reads exactly the quoted word |
| `HookScript.HookScriptBin` | cmd/innsegl/doctorrights.go:160-176 | the scan over the lines answers the first word that ends right before " git-hook " |
| `HookScript.ReadsBack` | cmd/innsegl/link.go:152-162 | each of the three scripts names its binary again, whatever quotes the two paths hold |
| `HookScript.ReadsBackIff` | cmd/innsegl/doctorrights.go:160-176 | exactly for paths without a newline or " git-hook " |
| `HookScript.LinesBinAvoids` | cmd/innsegl/doctorrights.go:160-176 | whatever script is read, the binary found holds neither |
| `HookScript.ScriptHasMarker` | cmd/innsegl/hookreftx.go:58-71 | every generated script carries its own marker |
| `HookRun.ReadsScript` | cmd/innsegl/link.go:152-162 | a shell reads each script as its commands, whatever quotes the two paths hold |
| `HookRun.RunsPrepare` | cmd/innsegl/link.go:36-46 | prepare-commit-msg runs innsegl's check with git's arguments; a refusal is the script's and nothing else runs; otherwise the hook that was there before, if any, with the same arguments, and its status is the script's |
| `HookRun.RunsPostCommit` | cmd/innsegl/mirrorpush.go:50-62 | post-commit runs innsegl's step and then that hook, however the step ends |
| `HookRun.RunsTransaction` | cmd/innsegl/hookreftx.go:53-71 | reference-transaction runs the check for an agent's prepared transaction alone; a refusal is the script's; otherwise that hook; both read what git wrote |
| `HookInstaller.InstallConserves` | cmd/innsegl/link.go:215-260 | an install cut off after any file operation keeps every file of the user's |
| `HookInstaller.RemoveConserves` | cmd/innsegl/link.go:297-337 | so does a removal |
| `HookInstaller.NextConserves` | cmd/innsegl/link.go:184-337 | one step of a run changes the user's files by what the user added, and no more |
| `HookInstaller.HooksNeverLost` | cmd/innsegl/link.go:214-337 | over every run with a crash anywhere, the hook path and the saved path hold exactly the user's hooks, as a multiset |
| `HookInstaller.EachUpTo` | cmd/innsegl/link.go:206-260 | the second loop installs the hooks before the first that cannot be, does of that one what can be done, and no more |
| `HookInstaller.InstallOutcome` | cmd/innsegl/link.go:184-260 | the outcome of an install without a conflict, with any operation of any hook failing |
| `HookInstaller.InstallRefusedIff` | cmd/innsegl/link.go:184-260 | it succeeds exactly with no conflict, a binary, and every hook readable, movable and writable |
| `HookInstaller.RefusalKeepsAllIff` | cmd/innsegl/link.go:182-260 | a refusal leaves the hooks as they were exactly when the hooks before the one that stopped it were up to date and that one was not touched |
| `HookInstaller.UntouchedIff` | cmd/innsegl/link.go:215-260 | when a hook that could not be installed is as it was |
| `HookInstaller.LaterHookIsNotChecked` | cmd/innsegl/link.go:182-260 | directories whose install is refused after a hook was written, for a hook that cannot be read and for one that cannot be written |
| `HookInstaller.InstallLeaves` | cmd/innsegl/link.go:215-260 | what a success leaves at each hook: innsegl's script for that binary and the path ending in .innsegl-previous, mode 0755 or that of innsegl's own hook that was there, and a user's hook set aside as it was |
| `HookInstaller.HooksCanRunIff` | cmd/innsegl/link.go:249-257 | after a success all three hooks can be run exactly when none of innsegl's own that was there lacked an executable bit |
| `HookInstaller.RemoveIs` | cmd/innsegl/link.go:271-337 | with every hook readable and no operation failing, every hook of innsegl's is replaced by what was set aside, and the code is 2 exactly when there was a foreign hook and none of innsegl's |
| `HookInstaller.ScriptOpens` | cmd/innsegl/link.go:152-162 | every script begins with its first line and its marker |
| `HookInstaller.MarkedIff` | cmd/innsegl/link.go:253-256 | a cut-off script carries its marker exactly when it was written that far |
| `HookInstaller.RecoversIff` | cmd/innsegl/link.go:215-337 | after a write cut off in any state it can begin in, a later link or removal does what it would have done exactly when the write had passed the marker; otherwise a conflict where a hook is set aside, and a fragment moved aside and put back where none is |
| `HookInstaller.StuckForever` | cmd/innsegl/link.go:184-337 | in a conflict every run of links and removals leaves the two files as they are |
| `HookInstaller.FragmentForever` | cmd/innsegl/link.go:184-337 | without one, every run of links and removals, cut off anywhere, keeps the fragment as a user's hook |
| `HookInstaller.InstallTwice` | cmd/innsegl/link.go:184-260 | installing twice is installing once |
| `HookInstaller.RoundTripSlot` | cmd/innsegl/link.go:215-337 | one hook's install and removal give it back exactly when nothing was saved and it was not innsegl's |
| `HookInstaller.InstallThenRemoveIff` | cmd/innsegl/link.go:184-337 | install then remove, both without an error, give back every entry exactly when nothing was saved and no hook was innsegl's |
| `HookInstaller.EnsureTwice` | cmd/innsegl/link.go:347-368 | a second re-link changes no file, and is a no-op exactly when the binary's path can be read back |
| `HooksDirectory.Directory.InstallHook` | cmd/innsegl/link.go:215-260 | goes through no state but those of its specification; not stopped, it ends where an install with that failure ends |
| `HooksDirectory.Directory.InstallAll` | cmd/innsegl/link.go:206-211 | the second loop, stopped anywhere or to its end |
| `HooksDirectory.Directory.LinkInstall` | cmd/innsegl/link.go:184-212 | stopped anywhere, each hook is in a state of its own install; not stopped, 0 or 2, and on 0 each hook holds its script, mode 0755 or its own old one, with a user's hook set aside as it was; with a conflict or without a binary no file operation at all |
| `HooksDirectory.Directory.RemoveHook` | cmd/innsegl/link.go:297-337 | one removal, with an operation that fails or the machine stopped |
| `HooksDirectory.Directory.RemoveAll` | cmd/innsegl/link.go:271-287 | the loop with its two counters, over any list of hooks, gives the specified outcome and exit code |
| `HooksDirectory.Directory.LinkRemove` | cmd/innsegl/link.go:271-287 | stopped anywhere, each hook is in a state of its own removal; to its end and with nothing failing, innsegl's hooks are replaced by what was set aside, and the code is 2 exactly with a foreign hook and none of innsegl's |
| `HooksDirectory.Directory.LinkEnsure` | cmd/innsegl/link.go:347-368 | leaves everything alone exactly when every hook carries its marker and names the binary, if there is one; when it links, each hook holds its script and its mode |
| `HooksDirectory.LeftAloneIs` | cmd/innsegl/link.go:347-368 | when that is, said of the files: each hook a file with its marker, and the binary read back out of it |
| `TokenBucket.LevelIsLeastRoom` | cmd/innsegl/coretrustbackup.go:151-188 | the level is the least room left over all windows that end now |
| `TokenBucket.BucketIsWindow` | cmd/innsegl/coretrustbackup.go:151-188 | a call is admitted exactly when, since every earlier call, the admitted ones plus this are within burst plus elapsed over refill |
| `TokenBucket.Independent` | cmd/innsegl/coretrustbackup.go:172-188 | a machine's bucket is what its own calls alone make it |
| `TokenBucket.FoundIsWindow` | cmd/innsegl/coretrustbackup.go:172-188 | so a machine's next call is judged by the window over its own calls |
| `TokenBucket.BackupLimiter.constructor` | cmd/innsegl/coretrustbackup.go:164-169 | starts with no machine seen |
| `TokenBucket.BackupLimiter.Backup` | cmd/innsegl/coretrustbackup.go:164-169 | the backup limiter's burst and refill |
| `TokenBucket.BackupLimiter.Custody` | cmd/innsegl/corecacustody.go:206-215 | the custody limiter's burst and refill |
| `TokenBucket.BackupLimiter.Allow` | cmd/innsegl/coretrustbackup.go:172-188 | answers as the window over the machine's calls, gives the wait, and touches no other machine |
| `TokenBucket.WaitIsExact` | cmd/innsegl/coretrustbackup.go:172-188 | after a refusal, every earlier call is refused, however many, and the first at now plus the wait is admitted |
| `TokenBucket.RetryAfterSuffices` | cmd/innsegl/corecacustody.go:195-199 | the header in whole seconds never undercuts the wait, and overshoots by less than a second |
| `TokenBucket.MayFetch` | cmd/innsegl/coretrustbackup.go:82-97 | true exactly for an active workstation whose creator is an operator's owner or admin in its account |
| `TokenBucket.AdmitOperatorMachine` | cmd/innsegl/corecacustody.go:167-201 | which answer each caller gets; only an entitled machine spends a token, and one sent away is admitted after the time it was told |
| `ConfigRecorder.KeyNamesDistinct` | cmd/innsegl/initgit.go:179-181 | under the names git goes by, letter case aside, innsegl's keys, once flattened, are distinct from each other and from every other key |
| `ConfigRecorder.FoldedIs` | cmd/innsegl/initgit.go:179-181 | the name git goes by keeps the case of a subsection, and folds that of the section and the variable |
| `ConfigRecorder.RunNamesDistinct` | cmd/innsegl/initgit.go:227-376 | over every run no two keys of the configuration have one name, letter case aside |
| `ConfigRecorder.ApplyKeeps` | cmd/innsegl/initgit.go:227-268 | an apply cut off at any write keeps the record true; a completed one seals it |
| `ConfigRecorder.ApplyLeaves` | cmd/innsegl/initgit.go:227-268 | a completed apply leaves gpg.format at x509 and gpg.x509.program at the path, and every key that is not innsegl's as it was |
| `ConfigRecorder.SignsOn` | cmd/innsegl/initgit.go:227-376 | over every run, the two keys keep those values up to the next apply |
| `ConfigRecorder.UndoRestores` | cmd/innsegl/initgit.go:274-329 | a completed undo gives back exactly the configuration without innsegl |
| `ConfigRecorder.RunKeeps` | cmd/innsegl/initgit.go:227-376 | over every run of applies, recorded files and refs and user edits the record stays true |
| `ConfigRecorder.UndoAfterAnyRun` | cmd/innsegl/initgit.go:227-376 | after any such run, an undo of a sealed record gives what the user's edits alone would have given |
| `ConfigRecorder.CompletedApplySeals` | cmd/innsegl/initgit.go:227-268 | one completed apply anywhere in the run seals the record for good |
| `ConfigRecorder.SecondUndoAt` | cmd/innsegl/initgit.go:288-296 | what a second undo makes of each key |
| `ConfigRecorder.InterruptedUndoIff` | cmd/innsegl/initgit.go:288-296 | exactly when an undo cut off after any number of writes, then completed, restores the configuration |
| `ConfigRecorder.SecondUndoLoses` | cmd/innsegl/initgit.go:288-296 | an undo cut off after two writes, run again, takes gpg.format's value away |
| `ConfigRecorder.UndoneIsDone` | cmd/innsegl/initgit.go:274-329 | cut off at its last point, undo is done and a second one refuses |
| `GitConfig.MergedIsUnion` | cmd/innsegl/initgit.go:336-359 | the merged list has the old one in front, exactly the new paths added, and no repeats |
| `GitConfig.RecordReadsBack` | cmd/innsegl/initgit.go:336-367 | the recorded files are read back |
| `GitConfig.Recorder.Capture` | cmd/innsegl/initgit.go:236-256 | one key's capture, cut off anywhere, is a prefix of its writes |
| `GitConfig.Recorder.Apply` | cmd/innsegl/initgit.go:227-268 | apply, cut off anywhere, is a prefix of its specified writes; not cut off, gpg.format is x509, gpg.x509.program the path, and every key that is not innsegl's as it was |
| `GitConfig.Recorder.Restore` | cmd/innsegl/initgit.go:284-312 | one key of undo: put back, or unset, or an error that changes nothing |
| `GitConfig.Recorder.Undo` | cmd/innsegl/initgit.go:274-329 | refuses without a sealed record; otherwise, cut off anywhere, a prefix of its specified writes; and what is left when the first or the second key refuses |
| `GitConfig.Recorder.RecordFiles` | cmd/innsegl/initgit.go:336-359 | records the merged list and nothing else |
| `KeyFile.NextKeeps` | cmd/innsegl/gateway.go:1653-1691 | every step keeps one holder of the temporary file, its contents a part of that holder's key, and the path a whole key |
| `KeyFile.RunKeeps` | cmd/innsegl/gateway.go:1653-1691 | so does every run |
| `KeyFile.ReaderSeesWholeKey` | cmd/innsegl/gateway.go:1641-1691 | in every interleaving and crash a reader sees nothing or one replica's whole key |
| `KeyFile.PublishedForGood` | cmd/innsegl/gateway.go:1641-1691 | with one key, what is published never changes |
| `KeyFile.DifferentKeysOverwrite` | cmd/innsegl/gateway.go:1653-1691 | with two keys, a run in which the published one changes |
| `KeyFile.NeverChangesIff` | cmd/innsegl/gateway.go:1641-1691 | it never changes, in any run, exactly when the replicas agree |
| `KeyFile.AbandonedForGood` | cmd/innsegl/gateway.go:1671-1691 | a temporary file left by a crash is never written, published or removed again, however often replicas start |
| `KeyFile.AbandonedAtFirst` | cmd/innsegl/gateway.go:1671-1691 | one replica that stops at the wrong point leaves one |
| `KeyFile.NeverPublishedIff` | cmd/innsegl/gateway.go:1638-1691 | at any point of any run, starting replicas again can still publish the key exactly when none was left |
| `KeyFile.WriteMessageKeyFile` | cmd/innsegl/gateway.go:1653-1691 | alone it is a run of the protocol, and publishes the key whole, leaves an equal one, refuses a different one |
| `SchemaCutover.KeyNamesVersion` | cmd/innsegl/migrateschema.go:63-65 | the key tells the version migrated from |
| `SchemaCutover.NextKeeps` | cmd/innsegl/migrateschema.go:134-224 | every step of every run or writer keeps keys unique and what each run has read true of the chain |
| `SchemaCutover.RunKeeps` | cmd/innsegl/migrateschema.go:134-224 | so does every interleaving |
| `SchemaCutover.AttestedOnce` | cmd/innsegl/migrateschema.go:134-224 | at most one attestation per version pair is in the chain, and at most one run added it |
| `SchemaCutover.SuccessIsStored` | cmd/innsegl/migrateschema.go:180-224 | over every interleaving, the position a successful run reports, its own append or another's, is the one the stored attestation of version 5 names |
| `SchemaCutover.SecondRunAddsNothing` | cmd/innsegl/migrateschema.go:134-150 | in every interleaving, a run that has not begun when the attestation is there appends nothing |
| `SchemaCutover.SeparatesIff` | cmd/innsegl/migrateschema.go:152-224 | the named position separates the versions exactly when the run was not disturbed |
| `SchemaCutover.FreshSuccessIff` | cmd/innsegl/migrateschema.go:152-224 | the same for every fresh success in every interleaving |
| `SchemaCutover.DisturbedRun` | cmd/innsegl/migrateschema.go:152-224 | a fresh success that another writer disturbed |
| `SchemaCutover.InterleavedIff` | internal/ledger/patchid.go:215-243 | the mixed answer means that no position separates the versions |
| `SchemaCutover.MigrateSchema` | cmd/innsegl/migrateschema.go:134-224 | alone: appends one attestation of the separating position under version 5 and its key, or changes nothing; 2 exactly when migrating from version 5 itself, 5 exactly when nothing is attested and no position separates the versions, 0 otherwise |
| `CodexConfig.CodexConfigContains` | cmd/innsegl/connectcodexverify.go:160-191 | the recursion with its flag decides containment |
| `CodexConfig.Reflexive` | cmd/innsegl/connectcodexverify.go:160-191 | every configuration contains itself |
| `CodexConfig.ContainsThrough` | cmd/innsegl/connectcodexverify.go:160-191 | containment carries over to whatever is held explicitly |
| `CodexConfig.CarriesOverIff` | cmd/innsegl/connectcodexverify.go:160-191 | and to nothing else |
| `CodexConfig.NotTransitive` | cmd/innsegl/connectcodexverify.go:160-191 | three configurations on which transitivity fails |
| `CodexConfig.NormalTwice` | cmd/innsegl/connectcodexverify.go:123-158 | normalising twice is normalising once |
| `CodexConfig.NormalGroupIs` | cmd/innsegl/connectcodexverify.go:130-156 | what it does to a group: a matcher absent, null, empty or "*" becomes null, each handler without async says false, and no other field changes |
| `CodexConfig.NormalizeHandlers` | cmd/innsegl/connectcodexverify.go:140-156 | an error exactly when a handler is no object; otherwise each one normalised |
| `CodexConfig.NormalizeGroups` | cmd/innsegl/connectcodexverify.go:130-156 | the same for the groups of an event |
| `CodexConfig.NormalizeCodexHookSemantics` | cmd/innsegl/connectcodexverify.go:123-158 | an error exactly for a malformed configuration; otherwise its normal form, whatever order the table is walked in |
| `CodexConfig.NormalEnlarges` | cmd/innsegl/connectcodexverify.go:88-191 | a normalised configuration that contains settings whose only nulls are matchers holds them explicitly |
| `CodexConfig.AcceptsItself` | cmd/innsegl/connectcodexverify.go:88-121 | a well-formed configuration is accepted as itself |
| `CodexConfig.KeepsIff` | cmd/innsegl/connectcodexverify.go:123-191 | on configurations as loaded: one, normalised, holds another, normalised, exactly when it keeps every setting, with no group more selective and no handler more asynchronous |
| `CodexConfig.EnlargedStaysAccepted` | cmd/innsegl/connectcodexverify.go:88-191 | an accepted configuration stays accepted when one that keeps all it says takes its place |
| `CodexNulls.SaidDecides` | cmd/innsegl/connectcodexverify.go:88-191 | a loaded configuration's nulls, and its handlers with a null async, decide nothing |
| `CodexNulls.StaysAcceptedIff` | cmd/innsegl/connectcodexverify.go:88-191 | whatever was loaded, everything accepted stays accepted exactly with one that keeps what it says, its nulls aside |
| `CodexConfig.EnlargedIsRefused` | cmd/innsegl/connectcodexverify.go:88-191 | configurations that only grew, by a matcher or by an async handler, and are refused |
| `CodexConfig.SelectiveGroups` | cmd/innsegl/connectcodexverify.go:134-155 | one such group of each kind |
| `CommandGuard.ClosedSplits` | cmd/innsegl/hooknosign.go:63-71 | text whose quotes all close is stripped apart from what follows |
| `CommandGuard.ProseIsASpace` | cmd/innsegl/hooknosign.go:63-71 | behind it, a quoted span with a blank is one space, whatever it says |
| `CommandGuard.QuotedSpan` | cmd/innsegl/hooknosign.go:63-71 | and one without a space, tab or newline is its own text: quotes do not hide an argument |
| `CommandGuard.DanglingShows` | cmd/innsegl/hooknosign.go:63-71 | behind a dangling quote two messages strip differently |
| `CommandGuard.WordingNeverCountsIff` | cmd/innsegl/hooknosign.go:29-71 | the wording never counts exactly when the text before it leaves no quote open |
| `CommandGuard.ConfigWritesSigning` | cmd/innsegl/hooknosign.go:100-118 | the loop with its flag decides whether the arguments write a signing key |
| `CommandGuard.ReadingChangesNothing` | cmd/innsegl/hooknosign.go:97-105 | the eight words that ask for a value, in front, mean that nothing is written |
| `CommandGuard.WritesCaught` | cmd/innsegl/hooknosign.go:97-118 | in any letter case, a gpg key set to anything is a write, a signing key unset is one, and commit.gpgsign set is one exactly for false, 0, no and off |
| `CommandGuard.TurnsSigningOff` | cmd/innsegl/hooknosign.go:78-95 | the verdict over the stripped command |
| `Text.LowerIff` | cmd/innsegl/hooknosign.go:57-58 | two words are one to the guard exactly when they differ in the case of ASCII letters alone |
| `CommandGuard.VerdictIgnoresProse` | cmd/innsegl/hooknosign.go:29-95 | the verdict does not depend on a quoted message's wording or quotes, whatever the patterns are |
| `InputHash.DecodesOne` | scripts/compose-up.py:171-174 | an entry of the stream reads back, and leaves the rest |
| `InputHash.StreamTells` | scripts/compose-up.py:159-194 | the stream of a list of files and links is uniquely decodable |
| `InputHash.HashTar` | scripts/compose-up.py:159-175 | the digest is that of the stream of the members not skipped, in order |
| `InputHash.TarTells` | scripts/compose-up.py:159-175 | two archives with one digest keep the same files and links with the same contents |
| `InputHash.SkippedIff` | scripts/compose-up.py:167-169 | exactly the members whose last component holds ".tmp." or ends in ".partial" are passed over |
| `InputHash.RelativeIs` | scripts/compose-up.py:166 | a member goes by its name without the first component |
| `InputHash.TarHas` | scripts/compose-up.py:159-175 | so a file or link of one archive is in any other with its digest, under the same name below the first component, with the same contents |
| `InputHash.TreeTells` | scripts/compose-up.py:178-194 | two lists of files and links with one stream are one list |
| `DirectoryWalk.HashWalk` | scripts/compose-up.py:184-194 | the walk feeds the stream of the files and links it meets, directory by directory |
| `DirectoryWalk.HashPath` | scripts/compose-up.py:178-194 | the digest of a file or of a directory |
| `DirectoryWalk.PrunedWalks` | scripts/compose-up.py:184-188 | taking out links to directories, directories named __pycache__ and directories that hold nothing else leaves the walk as it was |
| `DirectoryWalk.UnseenIff` | scripts/compose-up.py:184-188 | adding or dropping an entry leaves the walk as it was exactly when it is one of these; a file or a link to one never is, and a directory named __pycache__ always |
| `DirectoryWalk.SelectWalk` | scripts/compose-up.py:184-194 | what the walk meets below a directory in it is the walk of that directory |
| `DirectoryWalk.WalkIsPruned` | scripts/compose-up.py:184-194 | two directories have one walk exactly when what is left of them is the same |
| `DirectoryWalk.WalkTellsIff` | scripts/compose-up.py:178-194 | two directories have one digest exactly when the walk meets the same in them, and so exactly when what is left of them is the same |
| `InputHash.ValueTells` | scripts/compose-up.py:178-194 | two mounts with one value hold the same, but for a file whose digest is a tree's whole stream |
| `InputHash.LineTells` | scripts/compose-up.py:305-308 | a line of the label's stream tells the kind, the target and the value, and where it ends |
| `InputHash.LabelStreamTells` | scripts/compose-up.py:302-310 | one stream means the same mounts in the same order |
| `InputHash.LabelTells` | scripts/compose-up.py:302-310 | so does one label, for any short hash that tells these two streams apart |
| `ServiceClosure.ClosureOf` | scripts/compose-up.py:136-148 | exactly the services a way of dependencies leads to from a named one; all when none is named |
| `ServiceClosure.ClosedHoldsWay` | scripts/compose-up.py:136-148 | what the search leaves with an empty list holds the end of every way |
| `ComposeWait.LookAt` | scripts/compose-up.py:373-400 | one service's turn: its outcome, what is remembered of it, and that nothing else changes |
| `ComposeWait.Round` | scripts/compose-up.py:372-400 | one pass: the first failure in order, or exactly the services that did not settle, in order |
| `ComposeWait.FailsIff` | scripts/compose-up.py:374-389 | a service fails a round exactly when its container is gone, or, not finished cleanly under on-failure, it is exited, dead, unhealthy, or restarted twice since the first look |
| `ComposeWait.SettlesIff` | scripts/compose-up.py:382-399 | it settles exactly when finished cleanly under on-failure, or, with nothing against it, healthy, or without a check and steady for five seconds |
| `ComposeWait.SinceBegins` | scripts/compose-up.py:392-400 | the remembered time is that of the first of the unbroken rounds |
| `ComposeWait.SteadyIff` | scripts/compose-up.py:392-398 | without a health check, up exactly when seen running with one restart count over unbroken rounds that span five seconds |
| `ComposeWait.WaitUp` | scripts/compose-up.py:355-407 | always ends; 0 exactly when every service settles, before it fails, in a round begun before the deadline, and then each was seen up with nothing against it before; a failure names a service with something against it, and a timeout one still pending after the deadline |
| `ComposeWait.AllUpIff` | scripts/compose-up.py:355-407 | the answer 0 is decided service by service, whatever else is awaited |
| `ComposeWait.ZeroVouches` | scripts/compose-up.py:355-407 | a 0 means each service was seen healthy, or finished under on-failure, or running steadily for five seconds, and in no round up to then gone, exited, dead, unhealthy or restarted twice |
| `ComposeWait.NotAllAtOnce` | scripts/compose-up.py:371-407 | for any two services or more, a 0 with the first already gone again |
| `ComposeWait.TogetherIff` | scripts/compose-up.py:371-407 | every 0 means that all are up in its round exactly when at most one service is awaited |
| `ComposeWait.EndsInTime` | scripts/compose-up.py:365-406 | the last check is within the timeout and one polling round, however long a round takes, or within the first round, and the rounds are at most a timeout's seconds and one more |

## Left out

- git itself: objects are values, ranges are reachability, a rebase is a given outcome for each commit.
- HTTP, TLS, flags, usage text, logging, docker's and launchd's commands.
- The `internal/` packages: the ledger's append keeps its first-match contract (internal/ledger/postgres.go:346-400), nothing more of it is modelled.
- Symbolic refs, which git sets without running the hook, and `GIT_NO_REPLACE_OBJECTS`, which only brings git back to the objects as they are.
- Two `link` processes at once: the check and the rename are separate steps without a lock, so the runs are sequential, with crashes.
- Mounts, ACLs, group membership and root in the filesystem; a symbolic link on the path is taken as resolved.
- FileRights.UnsafeCanChange: the moves need no search permission on the directories above, so below a directory the user cannot enter it says more than the kernel allows.
- FileRights.AnswerIsExact: the same holds for its "can change" half; the other half, `SafeForever`, only gains from it.
- Multi-valued git configuration keys.
- Floating-point rounding in the limiter, and in the wait's clock.
- The regular expressions of hooknosign.go, whose matches are inputs; letter case is folded for ASCII only.
- The sorting of a directory's entries and of an archive's members: the lists come in that order.
- CodexConfig.NormalizeCodexHookSemantics: works on values and returns the normal form, because a configuration has no sharing; the update of the nested maps in place is not captured.
- Signature.CommitIsSigned: takes the commit's text as git holds it; the trimming of blanks around it, which a commit object's first line never has, is not modelled.
- InputHash.LabelTells: the cut to 24 characters is part of the short hash, which is any function that tells the two streams apart.
- Resign.Worktree.Run: a git command that cannot be run at all is not modelled, because each such error is a plain early exit.
- HooksDirectory.Directory.LinkEnsure: a hook path git cannot name is left out, because each such error is a plain early exit; so for install and remove.
- The doctor's report lines, expiry thresholds, prompts and validators, each settled by one branch.
- KeyFile.WriteMessageKeyFile: making and narrowing the directory is left out; a write that fails half-way is the protocol's crash, not a case of the method.
- Key generation, certificates and token signing.
