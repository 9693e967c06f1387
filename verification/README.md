# devbox-bridge: verified model

devbox-bridge serves files, git, commands and a notes vault of one machine to a remote client. This
project models the parts of it that carry state, parsing or arithmetic, and proves what they promise.

| module | models |
|---|---|
| `NotesSync`, `NotesConservation`, `NotesContract`, `NotesAnswers` | the notes vault against a remote that other clones push to: pull, write, commit, push; what every interleaving keeps; what one call promises; when a write lands and which answer it gets |
| `Utf8`, `Patch` | UTF-8 with the strict and the replacing decoder, the byte-limited cut, and `apply_patch` |
| `BranchHeader`, `Porcelain` | the parsers of git's status and log output, against the printers that git is |
| `PathResolution`, `Containment` | symbolic-link resolution and the containment checks over a fixed file tree; which refusal is given, and what refusals do not tell |
| `RateLimit` | the sliding-window limiter and the authenticator |
| `Redaction`, `AuditLog` | redaction of arguments and the rotating audit log |
| `Server` | the HTTP gate and the audited tool call, over the two above |
| `Shlex`, `CommandCheck`, `CommandVerdicts` | the tokenizer against the quoting grammar, the command that is checked against the command that is run, and which verdict a command gets |
| `BoundedSearch` | the searches that stop early, against the full search |
| `Sequences`, `Text`, `Options` | splitting, joining, stripping, letter case, decimal numbers |

`dafny verify dfyconfig.toml` checks everything.

How the model is built:

- Objects that update fields are classes (`NotesVault`, `ProjectFile`, `RateLimiter`,
  `Authenticator`, `AuditLogger`, `Gateway`). Each of their methods is proved equal to a step
  function on values, and the theorems are about that function over whole runs. Loops of the original
  are loops here (`Check`, `CollectEntries`, `GitLog`, `SanitizeArgs`, `CleanupOldFiles`,
  `ResolveWithinAny`, `NotesSearch`, `SearchFiles`).
- What the network, other clones, a merge, the clock or a foreign program decides is an argument of a
  step. A theorem about all arguments is then one about every interleaving and every failure.
- Git is an abstract machine: a history is the sequence of its patches, a commit is identified by the
  history it ends (as a hash chain is), a plain push lands only as a fast-forward, and a rebase
  replays the local-only commits in order, dropping one whose change it finds upstream, or fails and
  leaves them.
- The locks around `RateLimiter.check` and `AuditLogger.log` make each call one step.

Where the code and its documentation differ, the model follows the code:

- A `NotesSyncError` does not mean that the file was not written (`docs/TOOLS.md:645-646`): a call whose
  commit or push fails has written it (`src/devbox_bridge/tools/notes.py:308-324`). `SyncErrorUnwritten`
  gives the exact condition, `SyncErrorWritten` such a call, `RetriedAppend` what a retry then does.
- A pull that runs into the timeout raises before `rebase --abort` is tried
  (`src/devbox_bridge/tools/notes.py:155-156`, `188-195`), so that the vault can stay in the middle of a
  rebase. Every write is refused there until a `notes_sync_pull` fails with an exit code and its abort
  works. `BecomesStuck`, `StuckStep`, `StuckRun`.
- The limit of the truncation helpers bounds the bytes kept, not the text returned: that encodes to up to
  limit + 2 bytes. `TruncateSize` says exactly when it is more than the limit.
- "No write is lost" (`src/devbox_bridge/audit.py:250-252`) fails where two rotations fall in the same
  second, because of the one-second resolution of archive names: `LosslessExactly`, `SameSecondLoses`.
  And a line with a lone surrogate in a text is not written at all: it raises, after the tool has
  acted (`src/devbox_bridge/audit.py:323-328`). `EncodableExactly`, `UnloggedWrite`.
- The module text of `audit.py` lists the key substring "key" (line 8); the set in the code has
  `api_key`, `apikey` and `private_key` but not "key" alone. `REDACT_KEY_SUBSTRINGS`.
- Paths with a secret segment are said to be redacted (`docs/SECURITY.md:251-252`). Only those are that start
  with the root, a dot, two dots, a tilde or a drive; `config/.env`, the form of most tool arguments, is
  logged as it is. `PathRedactedExactly`, `RelativePathKept`.
- A path of the system is said to count with or without a slash behind it
  (`src/devbox_bridge/security/commands.py:79`). All listed ones do with any number of slashes, but the root
  only as one: `//` does not count. `DangerPathExactly`.
- `Retry-After: 60` understates the wait: at exactly 60 seconds a call can be refused again, and with calls
  that enter d seconds late at 60 + d. `RetryAtSixtyExactly`, `LateRetryAccepted`, `RetryAtSixtyRefused`.
- The time of a rate-limited call is read before the lock is taken (`src/devbox_bridge/auth.py:108-111`),
  so that calls can enter out of order. With calls at most d seconds late the window that a limit of 2 or
  more guards is 60 - d seconds, not 60. `SafeLengthExactly`.
- On a branch without commits that has an upstream, the header parser returns the whole rest as the
  local name. `UnbornWithUpstreamMisread`.
- The comment on the log separators (`src/devbox_bridge/tools/git.py:367-368`) calls a collision unlikely.
  Git allows both characters in a subject, and one such commit is enough. `LogRoundTrip`.
- `search_files` says truncated when exactly as many matches exist as were asked for; `notes_search`
  does not. `SearchFiles`.

## Model

| member | source | states |
|---|---|---|
| NotesConservation.NotesConserved | src/devbox_bridge/tools/notes.py:286-326 | Over every interleaving of writes, pulls, other clones' pushes and failing steps: the bridge's commits in the remote followed by the local-only ones are those of the start followed by exactly the writes committed in the run, in order, told by message, save the commits that git dropped on replay, whose number is exactly what is missing |
| NotesConservation.ContentConserved | src/devbox_bridge/tools/notes.py:188-195 | As long as nobody else touches a note that waits to be published, no commit is dropped and all are conserved whole, content included |
| NotesConservation.RemoteOnlyGrows | src/devbox_bridge/tools/notes.py:315-326 | Each earlier remote history is a prefix of each later one |
| NotesConservation.PushedPublishesAll | src/devbox_bridge/tools/notes.py:318-326 | A write that returns pushed leaves nothing local-only: the remote is the vault's history, which ends in the returned commit |
| NotesConservation.PushedStays | src/devbox_bridge/tools/notes.py:315-326 | A commit returned as pushed is in the remote history of every later state of any run |
| NotesConservation.RunKeepsInv | src/devbox_bridge/tools/notes.py:286-336 | In every reachable state the local-only commits are all the bridge's, and what the vault has not fetched while it has such commits is all by others |
| NotesConservation.RunAccount | src/devbox_bridge/tools/notes.py:286-336 | Published and then local-only commits are what the start had and the run committed, with exactly the dropped ones left out, under any view of commits that replays keep |
| NotesConservation.PullKeeps | src/devbox_bridge/tools/notes.py:188-195 | A pull puts the kept local-only commits, in order, on top of the whole remote, or leaves the history as it was; an aborted failure leaves everything as it was; a clean tree stays clean |
| NotesConservation.PushKeeps | src/devbox_bridge/tools/notes.py:318-324 | A push that lands appends exactly the local-only commits to the remote; one that does not leaves it |
| NotesConservation.OthersKeep | src/devbox_bridge/tools/notes.py:286-326 | Pushes of other clones leave the local-only commits as they are |
| NotesConservation.WriteKeeps | src/devbox_bridge/tools/notes.py:286-326 | A write of any outcome keeps the invariant and only lets the remote grow |
| NotesConservation.WriteAccount | src/devbox_bridge/tools/notes.py:286-326 | A write adds to the account exactly the one commit it makes, or nothing, and takes off only what its pull drops |
| NotesAnswers.PushedExactly | src/devbox_bridge/tools/notes.py:286-326 | A write is answered pushed if and only if it is admitted, its pull returns, a note to be created is not there, its text is not committed already, the commit runs in time, nobody pushes in between, and the push reaches the remote and reports; how many commits wait to be published does not matter |
| NotesAnswers.LandsExactly | src/devbox_bridge/tools/notes.py:315-324 | The same for a push that lands, reported or not |
| NotesAnswers.PublishedExactly | src/devbox_bridge/tools/notes.py:315-326 | A write that lands publishes, on top of the whole remote and in order, the local-only commits as replayed and then its own; with nothing fetched, the vault's own branch and the new commit |
| NotesAnswers.UnpublishedExactly | src/devbox_bridge/tools/notes.py:302-324 | Any other write leaves the remote as it was, with what others push once the pull has returned |
| NotesAnswers.AnswersExactly | src/devbox_bridge/tools/notes.py:293-326 | Every answer by its exact condition: the refusal of a write that is not admitted, a file error for a note that exists, pushed, and a sync error for everything else |
| NotesAnswers.RefusedExactly | src/devbox_bridge/tools/notes.py:293-304 | Which refusal comes before anything is touched: mode, path, extension, directory, and only then the state of the vault, each if and only if its condition holds and no earlier one does |
| NotesAnswers.PullReturnsExactly | src/devbox_bridge/tools/notes.py:188-195 | A pull returns if and only if no rebase is in progress, it ends in time, and every local-only commit is replayed under its author and message, unchanged where nothing fetched touches it |
| NotesAnswers.MessageTells | src/devbox_bridge/tools/notes.py:316 | Commits of different notes or modes have different messages, so that what is told by message is told by note and mode |
| NotesConservation.TouchedExactly | src/devbox_bridge/tools/notes.py:188-195 | A path counts as touched if and only if some commit of the history changes it |
| NotesConservation.CheckoutExactly | src/devbox_bridge/tools/notes.py:315-317 | The committed content of a path is what the last commit that touches it says, and nothing when none does |
| NotesContract.CommittedWrite | src/devbox_bridge/tools/notes.py:286-317 | Every commit of a write sits directly on the pulled history, touches one path that passed admission, and holds the content or, for append, what the pulled tree held followed by it; create only where the pulled tree has no file; no other file changes; a clean tree stays clean |
| NotesContract.FailedWriteLeavesVault | src/devbox_bridge/tools/notes.py:286-326 | What each response tells of the files: a refusal changes nothing, a file error leaves the vault as it was or as pulled, a pushed note is written, and a sync error means refused and unchanged, or the pull raised, or the note is written on the pulled tree |
| NotesContract.SyncErrorUnwritten | src/devbox_bridge/tools/notes.py:294-324 | A sync error means that the file is not written if and only if the call was refused, the pull raised, or there was nothing to change |
| NotesContract.SyncErrorWritten | src/devbox_bridge/tools/notes.py:308-316 | A call that answers with a sync error and has created the note, without a commit |
| NotesContract.UncommittedWriteStays | src/devbox_bridge/tools/notes.py:308-316 | The note is written but not committed if and only if the call got past pull and create check and the commit fails or has nothing to commit; the history is then the pulled one |
| NotesContract.RetriedAppend | src/devbox_bridge/tools/notes.py:309-316 | A failed append that is retried commits the content twice |
| NotesContract.AppendedTwice | src/devbox_bridge/tools/notes.py:309-316 | Such a call and its retry, in an empty vault |
| NotesContract.UnpushedCommitKept | src/devbox_bridge/tools/notes.py:320-324 | A commit whose push does not land is the last local-only commit, and the caller gets an error |
| NotesContract.CleanAppend | src/devbox_bridge/tools/notes.py:309-311 | An append goes to the content of the commit's own base whenever the note is not dirty after the pull, as none is in a clean vault |
| NotesContract.AdmittedWrite | src/devbox_bridge/tools/notes.py:294-304 | A write reaches the pull if and only if its mode is known, pathname resolution of its path ends strictly below a write directory of the vault at a name with the extension in any case, no rebase is in progress, and no record of the status is unmerged or a rename that looks so |
| NotesContract.NotePathContained | src/devbox_bridge/tools/notes.py:165-172 | The note's path is the resolved root followed by the relative path, canonical, and ends in .md in any case |
| NotesContract.MarkdownExactly | src/devbox_bridge/tools/notes.py:170-171 | The extension check accepts exactly the names with a stem and one of the four spellings of .md |
| NotesContract.UnmergedStopsWrite | src/devbox_bridge/tools/notes.py:175-185 | One unmerged record in the status stops every write before the pull, whatever else the status shows |
| NotesContract.StuckStep | src/devbox_bridge/tools/notes.py:175-195 | While a rebase is in progress a write changes nothing, and only a pull that exits with an error and is aborted ends it |
| NotesContract.StuckRun | src/devbox_bridge/tools/notes.py:175-195 | A run stays in the middle of the rebase throughout if and only if none of its pulls recovers; until then the branch stands still and the remote grows only by other clones |
| NotesContract.BecomesStuck | src/devbox_bridge/tools/notes.py:188-195 | A vault gets there exactly by a pull that times out half-way, or fails and is not aborted |
| NotesSync.NotesVault.NotesWrite | src/devbox_bridge/tools/notes.py:286-326 | The call changes the vault and the remote, and answers, exactly as the step of the run theorems does; NotesAnswers.AnswersExactly and PublishedExactly say what that is |
| NotesSync.NotesVault.PullAndWrite | src/devbox_bridge/tools/notes.py:302-317 | From the pull on, as the staged step |
| NotesSync.NotesVault.CommitAndPush | src/devbox_bridge/tools/notes.py:315-326 | From the commit on, as the staged step |
| NotesSync.NotesVault.PullRebase | src/devbox_bridge/tools/notes.py:188-195 | Replay, aborted failure, failure without abort and timeout, each with its whole new state |
| NotesSync.NotesVault.WriteText | src/devbox_bridge/tools/notes.py:308-313 | One file of the working tree changes |
| NotesSync.NotesVault.Commit | src/devbox_bridge/tools/notes.py:315-316 | One commit of the one path, refused when there is nothing to commit |
| NotesSync.NotesVault.Push | src/devbox_bridge/tools/notes.py:319-324 | Lands as a fast-forward and not otherwise; NotesAnswers.LandsExactly says when that is |
| NotesSync.NotesVault.NotesSyncPull | src/devbox_bridge/tools/notes.py:332-336 | The pull, answered with whether the head moved |
| NotesAnswers.UpdatedExactly | src/devbox_bridge/tools/notes.py:332-336 | The answer of a pull that returns says updated if and only if the remote had commits that the vault did not have |
| Utf8.TruncateSpec | src/devbox_bridge/tools/git.py:206-212 | Identity and no flag exactly when the encoding fits; otherwise the longest code-point prefix that fits, plus one U+FFFD exactly when the cut falls inside a code point; the total is that of the whole text |
| Utf8.FittingPointsIsLongest | src/devbox_bridge/tools/execution.py:136-142 | A prefix of the text fits in the limit if and only if it has no more code points than the one kept |
| Utf8.TruncateSize | src/devbox_bridge/tools/execution.py:136-142 | The exact size of the result; it is more than the limit if and only if the text does not fit and the fitting prefix leaves one or two bytes unused, and at most limit + 2 |
| Utf8.TruncateSizeReached | src/devbox_bridge/tools/system.py:163-168 | For every positive limit some text reaches limit + 2 |
| Utf8.TruncateFixesText | src/devbox_bridge/tools/git.py:206-212 | The text comes back unchanged if and only if it fits, or only the end of a final U+FFFD is cut off a text of scalar values |
| Utf8.CutPointDecodes | src/devbox_bridge/tools/execution.py:136-142 | Any proper prefix of a code point's bytes decodes to a single U+FFFD |
| Utf8.DecodeAfterPrefix | src/devbox_bridge/tools/execution.py:136-142 | Whatever bytes follow it, an encoded text decodes back in front of them |
| Utf8.StrictRoundTrip | src/devbox_bridge/tools/filesystem.py:134-144 | Strict decoding of an encoding gives the text back |
| Utf8.StrictDecodesEncodings | src/devbox_bridge/tools/filesystem.py:134-144 | Strict decoding accepts only encodings: re-encoding what it read gives the same bytes, so overlong and surrogate forms are refused |
| Utf8.EncodeDecodedPoint | src/devbox_bridge/tools/filesystem.py:134-144 | The sequence a code point was decoded from is the one the encoder gives |
| Utf8.EncodePointExactly | src/devbox_bridge/tools/execution.py:136-142 | A scalar value is encoded by the table of section 3 of RFC 3629: number of bytes, lead bits and six bits in each further byte |
| Patch.ProjectFile.ApplyPatch | src/devbox_bridge/tools/filesystem.py:262-312 | Each error exactly under its condition, with the file untouched; on success the file is the old one with exactly the reported number of separators swapped between fixed runs of bytes, decodes to the replaced text, and has the stated size |
| Patch.BinaryExactly | src/devbox_bridge/tools/filesystem.py:115-116 | A file counts as binary if and only if a zero stands among its first 8192 bytes |
| Patch.ReplaceSwapsSeparators | src/devbox_bridge/tools/filesystem.py:296-300 | Text and replaced text are the same pieces joined by old and by new, one more piece than the count, also for empty old |
| Patch.PiecesAreLeftmost | src/devbox_bridge/tools/filesystem.py:296-300 | Each replaced occurrence is the leftmost one of what is left, and none is left in the last piece |
| Patch.CountIsMaximal | src/devbox_bridge/tools/filesystem.py:296 | No way to cut the text at non-overlapping occurrences has more of them than the count |
| Patch.ReplaceBytes | src/devbox_bridge/tools/filesystem.py:300-310 | The same in bytes, and the size changes by count times the difference of the encoded lengths |
| Patch.ReplaceScalars | src/devbox_bridge/tools/filesystem.py:300-301 | The replaced text can be encoded exactly when the replacement can |
| BranchHeader.HeaderRoundTrip | src/devbox_bridge/tools/git.py:222-262 | For all names that git-check-ref-format allows and all counts (none, one, both, gone), the printed header is parsed back exactly if and only if no name has white space (necessarily non-ASCII) at an edge |
| BranchHeader.ParsePrinted | src/devbox_bridge/tools/git.py:222-262 | In every case the parser returns the printed state with its names stripped |
| BranchHeader.EdgeSpaceIsLost | src/devbox_bridge/tools/git.py:249-255 | A branch name on which the round trip fails |
| BranchHeader.UnbornWithUpstreamMisread | src/devbox_bridge/tools/git.py:236-238 | With an upstream printed, the "No commits yet on" form never gives the local name |
| BranchHeader.SearchCounts | src/devbox_bridge/tools/git.py:258-261 | Both numbers are found in the bracket whichever of them git prints |
| BranchHeader.LastIndexOf | src/devbox_bridge/tools/git.py:242-243 | The last bracket: it stands there, none after it, and the length exactly when there is none |
| Text.ParsePrintNat | src/devbox_bridge/tools/git.py:260-261 | Reading a printed decimal number gives the number |
| Text.StripUnique | src/devbox_bridge/tools/git.py:244-255 | White space around a trimmed text is exactly what stripping takes off |
| Text.StripFixpoint | src/devbox_bridge/tools/git.py:249-255 | Stripping leaves a text alone if and only if neither edge is white space |
| Text.LowerIs | src/devbox_bridge/server.py:55 | A lowered text is a small word if and only if the text spells the word in some mixture of cases |
| Text.LowerContains | src/devbox_bridge/audit.py:126-128 | A lowered text has a small word in it if and only if some window of the text spells it |
| Porcelain.StatusRoundTrip | src/devbox_bridge/tools/git.py:265-326 | For every list of valid records, parsing what git prints gives exactly the staged, unstaged and untracked views of the list, in order; clean exactly when the list is empty |
| Porcelain.WholeStatusRoundTrip | src/devbox_bridge/tools/git.py:265-326 | Header and records together come back exactly if and only if the names are trimmed |
| Porcelain.HeaderlessRoundTrip | src/devbox_bridge/tools/git.py:277-282 | Without a header no record is mistaken for one |
| Porcelain.ParseFields | src/devbox_bridge/tools/git.py:290-310 | Every record is read back whole: the source path of a rename or copy is never an entry, whatever its text |
| Porcelain.EveryRecordShows | src/devbox_bridge/tools/git.py:325 | No view at all means no record at all |
| Porcelain.CollectEntries | src/devbox_bridge/tools/git.py:288-313 | The index-driven loop computes the recursive reading of the entries |
| Porcelain.ParsePorcelainV1 | src/devbox_bridge/tools/git.py:265-326 | The whole parser computes the function of the round trips |
| Porcelain.ConflictRefusal | src/devbox_bridge/tools/notes.py:182-185 | A write is refused if and only if some record is unmerged or the source path of a rename or copy starts like a conflict code |
| Porcelain.ConflictCodeExactly | src/devbox_bridge/tools/notes.py:53 | A code is unmerged if and only if both sides are added, deleted or updated, and one is updated or both are alike |
| Porcelain.RenameSourceRefused | src/devbox_bridge/tools/notes.py:182-185 | A status with nothing unmerged that is refused |
| Porcelain.GitLog | src/devbox_bridge/tools/git.py:399-416 | The loop over the records computes the reading of the log |
| Porcelain.LogRoundTrip | src/devbox_bridge/tools/git.py:367-416 | The log comes back, field by field and in order, if and only if no field of any commit holds a separator |
| PathResolution.ResolveIsWalk | src/devbox_bridge/security/paths.py:53-71 | Resolution by recursion has an outcome if and only if the step-by-step machine of section 4.13 of POSIX.1-2017 stops with it, and reports a loop if and only if that machine never stops |
| PathResolution.LinkMeans | src/devbox_bridge/security/paths.py:53-71 | In both modes, loops included: a path through a link resolves as the rest of the path behind the link's target, which an absolute link starts at the root and a relative one in its own directory |
| PathResolution.UpMeans | src/devbox_bridge/security/paths.py:53-71 | Dot-dot takes away the directory before it, and at the root nothing |
| PathResolution.MissingMeans | src/devbox_bridge/security/paths.py:53-55 | A missing name ends strict resolution: as not a directory behind a file, as missing behind a directory |
| PathResolution.PosixAgrees | src/devbox_bridge/security/paths.py:53-71 | Whatever resolves under the POSIX rules, both modes resolve alike |
| PathResolution.ResolveIsCanonical | src/devbox_bridge/security/paths.py:53-71 | A result has no dot-dot and no prefix that is a symbolic link; a strict one is in the tree |
| PathResolution.CanonicalResolves | src/devbox_bridge/security/paths.py:53-71 | A canonical path resolves to itself, strictly if and only if it exists |
| PathResolution.StrictAgrees | src/devbox_bridge/security/paths.py:149-167 | Strict resolution, where it succeeds, gives what non-strict resolution gives |
| PathResolution.ResolveWithinAccepts | src/devbox_bridge/security/paths.py:41-79 | A path is accepted if and only if pathname resolution of root and candidate ends there, below the root |
| Containment.ResolveWithinRefuses | src/devbox_bridge/security/paths.py:53-79 | Each refusal by pathname resolution alone: a security error if and only if the root is missing or the candidate ends outside it, the errors of a broken root, a loop; never file not found |
| Containment.CandidateVerdict | src/devbox_bridge/security/paths.py:60-79 | The verdict on a relative candidate is that of the path behind the root, on an absolute one that of the path itself |
| Containment.LinkContained | src/devbox_bridge/security/paths.py:53-79 | A candidate through a link inside the root is accepted if and only if the rest of its path behind the link's target ends below the root |
| Containment.EscapingLinkRefused | src/devbox_bridge/security/paths.py:66-77 | A link that leads out of the root is refused, wherever in the root it stands and whatever follows it |
| PathResolution.ResolveWithinIsCanonical | src/devbox_bridge/security/paths.py:41-79 | The accepted path is canonical, extends the resolved root component by component, and is accepted again as itself |
| PathResolution.AcceptedIsWhatIsOpened | src/devbox_bridge/security/paths.py:41-79 | In a fixed tree, what the system opens under the candidate's own name is the accepted path, so it lies below the root |
| PathResolution.WithinAnyAccepts | src/devbox_bridge/security/paths.py:131-167 | A path is accepted if and only if the candidate is absolute, resolves strictly to it, no root is broken, and it lies below some existing root |
| Containment.WithinAnyRefuses | src/devbox_bridge/security/paths.py:131-167 | Each refusal by its exact condition: a security error if and only if the candidate is relative, or no root is broken and it resolves to a path below no existing root; file not found if and only if it is below one and missing; not a directory and loops likewise, or by the first broken root |
| Containment.OutsideTellsNothing | src/devbox_bridge/security/paths.py:98-106 | Two file systems that resolve the roots alike give the same verdict on a path below none of them, whatever exists there |
| PathResolution.RootOrderIrrelevant | src/devbox_bridge/security/paths.py:112-116 | The verdict does not depend on order, repetition or missing entries of the root list, unless a root is broken, and then only in which error is reported |
| PathResolution.SecondCheckIsRedundant | src/devbox_bridge/security/paths.py:157-167 | In a fixed tree the second whitelist check changes no verdict |
| PathResolution.ResolveWithinAny | src/devbox_bridge/security/paths.py:92-167 | The loop over the roots and the two checks compute the verdict of the theorems |
| PathResolution.IsUnderAny | src/devbox_bridge/security/paths.py:170-177 | True if and only if some root is a prefix |
| Containment.ParsePrinted | src/devbox_bridge/security/paths.py:60 | A path reads back from its text, relative or absolute |
| Containment.DotsIgnored | src/devbox_bridge/security/paths.py:60 | Single dots and repeated slashes change nothing, wherever they stand |
| RateLimit.RateLimiter.Check | src/devbox_bridge/auth.py:102-120 | The eviction loop and the append change the buckets, and answer, as the step of the run theorems does |
| RateLimit.VerdictIsExact | src/devbox_bridge/auth.py:108-120 | With a clock that does not go back, a call is refused if and only if the limit's number of accepted hits lie in its last 60 seconds; an accepted call returns their number |
| RateLimit.VerdictWithin | src/devbox_bridge/auth.py:108-120 | With calls at most d seconds late, a refused call has the limit's number of hits from 60 + d seconds before it to d after it, and an accepted one has fewer from 60 - d before it on |
| RateLimit.BucketIsRecentHits | src/devbox_bridge/auth.py:112-120 | After any run with a clock that does not go back a bucket is exactly the accepted hits not older than 60 seconds at that token's latest check |
| RateLimit.BucketIsSuffix | src/devbox_bridge/auth.py:112-120 | Whatever the clock, a bucket holds the latest accepted hits |
| RateLimit.BucketAtMost | src/devbox_bridge/auth.py:115-119 | Whatever the clock, no bucket ever holds more than the limit |
| RateLimit.WindowBound | src/devbox_bridge/auth.py:102-120 | With a clock that does not go back, every closed 60-second interval holds at most the limit of accepted calls per token |
| RateLimit.SkewedBound | src/devbox_bridge/auth.py:108-120 | With calls that enter at most d seconds late, every closed interval of 60 - d seconds holds at most the limit |
| RateLimit.SingleBound | src/devbox_bridge/auth.py:108-120 | At limit 1 the 60 seconds hold whatever the order of the calls |
| RateLimit.SafeLengthExactly | src/devbox_bridge/auth.py:108-120 | An interval length is safe for all runs with calls at most d seconds late if and only if it is at most 60 - d, or at most 60 at limit 1 |
| RateLimit.HitsSpaced | src/devbox_bridge/auth.py:102-120 | With a clock that does not go back, any limit + 1 consecutive accepted calls of a token span more than 60 seconds |
| RateLimit.LateCallExceeds | src/devbox_bridge/auth.py:108-111 | For every limit, lateness and longer interval, and every token and time, a run that breaks it |
| RateLimit.KeepSameHits | src/devbox_bridge/auth.py:102-120 | Whatever the clock, dropping calls that are not a token's accepted ones leaves its bucket and its accepted hits as they are |
| RateLimit.NonInterference | src/devbox_bridge/auth.py:102-120 | Whatever the clock, deleting other tokens' calls and refused calls from a run changes no verdict of a token |
| RateLimit.LateRetryAccepted | src/devbox_bridge/server.py:39 | After a refusal, with no accepted call since and calls at most d seconds late, every call more than 60 + d seconds later is accepted |
| RateLimit.RetryAccepted | src/devbox_bridge/server.py:39 | The same with a clock that does not go back: more than 60 seconds suffice |
| RateLimit.RetryAtSixtyExactly | src/devbox_bridge/server.py:39 | With a clock that does not go back, a call exactly 60 seconds later is refused again if and only if all the hits that the refusal counted stand at its own instant |
| RateLimit.RetryAtSixtyRefused | src/devbox_bridge/server.py:39 | For every limit and lateness d a run in which a call exactly 60 + d seconds later is refused again |
| RateLimit.Authenticator.Check | src/devbox_bridge/auth.py:134-176 | Missing or wrong token fails without a trace, otherwise the limiter decides under the token's log id |
| RateLimit.FailuresLeaveNoTrace | src/devbox_bridge/auth.py:144-163 | The buckets after any requests are those of the valid ones alone |
| RateLimit.NextAuthIsExact | src/devbox_bridge/auth.py:142-176 | With a clock that does not go back, a request gets in if and only if its token is valid and fewer than the limit of accepted requests of it lie in its last 60 seconds |
| RateLimit.NextAuthWithin | src/devbox_bridge/auth.py:142-176 | The verdict on a valid token, within d seconds, when requests are at most d seconds late |
| RateLimit.LogIdExactly | src/devbox_bridge/auth.py:75-83 | The log id is the first eight characters of the hash, or "(none)" |
| Redaction.SanitizeArgs | src/devbox_bridge/audit.py:154-162 | The loop over one mapping computes the recursive redaction |
| Redaction.SanitizeCleans | src/devbox_bridge/audit.py:126-162 | At any depth a sensitive key holds only the placeholder and no other string is a path with a secret segment |
| Redaction.SanitizeFixesClean | src/devbox_bridge/audit.py:126-162 | A value is left as it is if and only if it is clean |
| Redaction.SanitizeIdempotent | src/devbox_bridge/audit.py:126-162 | Redacting twice is redacting once |
| Redaction.SanitizeInPlace | src/devbox_bridge/audit.py:142-162 | At every position that no sensitive key leads to stands the redaction of what stood there, and no position appears or disappears |
| Redaction.RedactedPosition | src/devbox_bridge/audit.py:157-160 | Under the first sensitive key stands the placeholder and nothing below it |
| Redaction.SanitizeKeepsShape | src/devbox_bridge/audit.py:142-162 | Key sets, lengths and all other leaves are kept |
| Redaction.PathRedactedExactly | src/devbox_bridge/audit.py:123-139 | A text is redacted if and only if it has a secret segment and starts with the root, a dot, two dots, a tilde or a drive |
| Redaction.RelativePathKept | src/devbox_bridge/audit.py:131-139 | A relative path with a secret segment that is kept |
| Redaction.SecretSegmentExactly | src/devbox_bridge/audit.py:135-139 | A path has a secret segment if and only if one of the eight names stands between slashes or the ends of the text |
| Redaction.RedactKeyExactly | src/devbox_bridge/audit.py:126-128 | A key is sensitive if and only if one of the seven words stands somewhere in it, in any mixture of cases |
| Redaction.PlaceholderTexts | src/devbox_bridge/audit.py:121-122 | The two texts that stand for what is redacted |
| Redaction.SanitizeIsScalar | src/devbox_bridge/audit.py:142-162 | What redaction returns can be encoded if and only if every text that it lets through can |
| AuditLog.AuditLogger.constructor | src/devbox_bridge/audit.py:255-270 | On a directory with any current file and archives: exactly the archives older than the retention are removed, and disk and history are in step |
| AuditLog.AuditLogger.Log | src/devbox_bridge/audit.py:280-328 | Rotation if due, then one redacted line, or nothing for an unaudited success, or an error and no line for one that cannot be encoded, with files on disk and history of archives in step |
| AuditLog.LogStepAdds | src/devbox_bridge/audit.py:303-328 | A call adds its line if and only if the policy wants it and it can be encoded |
| AuditLog.RotatesExactly | src/devbox_bridge/audit.py:303-349 | A call rotates if and only if the policy wants its line and the file has reached the size, whether or not the line can be encoded; the archive is the whole file under that second; an unwanted call touches nothing |
| AuditLog.EncodableExactly | src/devbox_bridge/audit.py:308-328 | A line can be encoded if and only if project, error message and every argument text that redaction lets through can |
| AuditLog.LineKeeps | src/devbox_bridge/audit.py:308-323 | A line keeps every field of its record but the arguments, and those key by key, redacted |
| AuditLog.AuditLogger.MaybeRotate | src/devbox_bridge/audit.py:330-349 | At the rotation size the current file becomes the archive of that second, replacing one of the same name |
| AuditLog.AuditLogger.CleanupOldFiles | src/devbox_bridge/audit.py:351-359 | Exactly the archives older than the cutoff are removed |
| AuditLog.LinesConserved | src/devbox_bridge/audit.py:325-359 | From any start, the archives in rotation order, whatever became of them, followed by the current file are what was there followed by exactly all lines written, in order |
| AuditLog.RunFates | src/devbox_bridge/audit.py:340-359 | Whatever the clock does, an archive is replaced by the next of its name that comes while it is there, removed by the first rotation that finds it too old, or still on disk |
| AuditLog.LosslessExactly | src/devbox_bridge/audit.py:340-359 | Whatever the clock does, nothing but retention removes a line if and only if every archive whose name comes up again had been removed before |
| AuditLog.DistinctSecondsExactly | src/devbox_bridge/audit.py:340-349 | Rotations in distinct seconds lose nothing; with a clock that does not go back only they do |
| AuditLog.SameSecondLoses | src/devbox_bridge/audit.py:337-348 | Three large calls at one instant leave the first line in no file |
| AuditLog.RunSizes | src/devbox_bridge/audit.py:333-338 | Each archive reached the rotation size with its last line and not before; the current file is below rotation size plus its last line |
| AuditLog.RunIsClean | src/devbox_bridge/audit.py:308-328 | No argument on any line ever written holds a secret |
| Server.Gateway.HandleHttp | src/devbox_bridge/server.py:94-134 | Limiter state, log and answer change as the step of the run theorems does |
| Server.Gateway.HandleToken | src/devbox_bridge/server.py:103-134 | The same for an extracted token |
| Server.Gateway.Answer | src/devbox_bridge/server.py:105-134 | One denied line and 401 or 429 for a refusal, nothing for a request that gets in |
| Server.Gateway.CallWithAudit | src/devbox_bridge/server.py:223-261 | One record of the call's outcome, under the policy, and the call's own result or failure |
| Server.ExtractsExactly | src/devbox_bridge/server.py:51-57 | A header gives a token if and only if it is, in white space, "bearer" in any mixture of cases, a space, further white space and the token; every other header gives none |
| Server.HeaderIsAnswered | src/devbox_bridge/server.py:94-134 | The answer to a header that carries a token is the one due to that token, however the scheme is spelled and spaced |
| Server.PlainBearer | src/devbox_bridge/server.py:51-57 | "Bearer" and a token carries that token |
| Server.OtherHeaderRefused | src/devbox_bridge/server.py:94-118 | Any other header is answered 401 in every state and leaves the limiter alone |
| Server.RefusalIsDenied | src/devbox_bridge/server.py:105-131 | The line of a refused request: denied, by its event and error, under the log id of the token that the header carries |
| Server.ToolLineTells | src/devbox_bridge/server.py:137-260 | The line of a tool call: its tool and project, success exactly for a call that returned, denied exactly for the seven rejections, under the event of its kind |
| Server.GateIsExact | src/devbox_bridge/server.py:94-134 | Reading headers by their form, not by the code: after any events with a clock that does not go back the app is entered if and only if the token is valid and within the limit counted from request times alone; otherwise 401 or 429 |
| Server.GateWithin | src/devbox_bridge/server.py:94-134 | The answer to a valid token, within d seconds, when requests are at most d seconds late |
| Server.LogIsExact | src/devbox_bridge/server.py:94-167 | After any events the log is exactly one denied line per refused request and one line per tool call that is not a silent read and can be encoded, in the order of events |
| Server.LineCount | src/devbox_bridge/server.py:223-261 | The log grows by one line for a refused request, none for an admitted one, one for a tool call, none for a silent read, and none for a call that cannot be encoded, which is exactly when its result is replaced by an error |
| Server.UnloggedWrite | src/devbox_bridge/server.py:233-261 | A write that has been done and of which no line tells |
| Server.PolicyOfTool | src/devbox_bridge/audit.py:233-244 | Silent are exactly the successful read tools while reads are not audited, so unknown tools and all failures are logged; what is logged is written exactly when its texts allow it |
| Server.SilentReadExactly | src/devbox_bridge/audit.py:233-244 | The twelve calls that go unlogged when they succeed and reads are not audited |
| Server.RejectionsAreDenied | src/devbox_bridge/server.py:137-167 | A failure under a rejection event is denied, whatever the tool is called; the two other denials keep the tool's event; everything else is an error |
| Server.BucketsFollowRequests | src/devbox_bridge/server.py:103-104 | Tool calls and non-HTTP traffic leave the limiter alone |
| Server.ServerLogIsClean | src/devbox_bridge/server.py:223-261 | No run leaves a secret argument on any line |
| CommandCheck.CheckedIsRun | src/devbox_bridge/security/commands.py:270-276 | For an accepted command the argv built from the string as given equals the argv that was checked if and only if stripping took off nothing but space, tab, CR and LF; the checked argv is not empty |
| CommandCheck.ExoticEdgeDiffers | src/devbox_bridge/tools/execution.py:189-194 | An accepted command on which the two differ |
| CommandCheck.RunNotDenied | src/devbox_bridge/security/commands.py:229-235 | For every accepted command, whatever white space strip() took off, the text as given tokenizes, has a token, and no deny rule holds of the argv that is run |
| CommandCheck.ExecutedWasChecked | src/devbox_bridge/tools/execution.py:253-272 | What run_command executes is the resolved first token of the text as given with its other tokens, no deny rule holds of them, and the stripped text matches the whitelist; that argv is the checked one if and only if the edges are plain |
| CommandCheck.AcceptedRuns | src/devbox_bridge/tools/execution.py:234-247 | An accepted command neither fails to tokenize nor is empty when run |
| CommandVerdicts.CheckExactly | src/devbox_bridge/security/commands.py:279-305 | A command is accepted if and only if the deny list passes it and some pattern matches the stripped text; no whitelist, no match and the deny list's refusals each by its exact condition |
| CommandVerdicts.WhitelistOnlyAdds | src/devbox_bridge/security/commands.py:298-303 | More patterns, in any order, never take an acceptance away, and the deny list does not depend on them |
| CommandVerdicts.DenyListExactly | src/devbox_bridge/security/commands.py:270-276 | Each verdict of the deny list by its exact condition: blank, not tokenizable, refused by a token rule, refused by an expression, passed |
| CommandVerdicts.TokensDeniedExactly | src/devbox_bridge/security/commands.py:86-183 | What the token rules refuse, by the program and its arguments, with flags and paths spelled out |
| CommandVerdicts.RunExactly | src/devbox_bridge/tools/execution.py:189-194 | A command is executed if and only if it is accepted and its first token is found, as that program with the other tokens; otherwise the answer is the verdict, or that the program is not found |
| Shlex.SplitIsMeaning | src/devbox_bridge/security/commands.py:238-243 | A text is spelled by exactly one line of the quoting grammar, finished or not, and the tokenizer returns what that line means: its words, or the error of a line that stops inside quotes or behind a backslash |
| Shlex.DeriveSpells | src/devbox_bridge/tools/execution.py:189 | Every text spells a line of the grammar, and the tokenizer is then in that line's state |
| Shlex.SpellDerives | src/devbox_bridge/tools/execution.py:189 | A line of the grammar is read back from its spelling: no text spells two |
| Shlex.SpacesAroundTokenize | src/devbox_bridge/tools/execution.py:189 | White space of any kind around a text that tokenizes opens no quotes |
| Shlex.SpacesAroundIgnored | src/devbox_bridge/security/commands.py:238-243 | The tokenizer's own white space around a text that tokenizes changes nothing |
| Shlex.SomeTokenIn | src/devbox_bridge/tools/execution.py:189-192 | Any text that tokenizes and is not all white space of the tokenizer has at least one token |
| CommandCheck.ExoticKept | src/devbox_bridge/security/commands.py:238-243 | The tokens hold exactly as many other white-space characters as the text |
| CommandCheck.DangerPathExactly | src/devbox_bridge/security/commands.py:78-83 | A path counts if and only if it is the root as one slash, or another listed path with any number of slashes behind it |
| CommandCheck.DenyIgnoresOrder | src/devbox_bridge/security/commands.py:229-235 | The token rules depend on the program and the set of its arguments alone: reordering or repeating arguments changes no verdict |
| BoundedSearch.NotesSearch | src/devbox_bridge/tools/notes.py:254-280 | The first 200 of all matching lines, in order; truncated if and only if there are more; a blank query is refused |
| BoundedSearch.ScanNotes | src/devbox_bridge/tools/notes.py:265-279 | The loop over the notes, the same |
| BoundedSearch.SearchNote | src/devbox_bridge/tools/notes.py:272-277 | The loop over one note's lines, given what earlier notes gave |
| BoundedSearch.AllMatchesExact | src/devbox_bridge/tools/notes.py:265-277 | A match is in the full search if and only if it is a line, under its own number, of a note that is no symlink, and holds the query up to case |
| BoundedSearch.LinesInOrder | src/devbox_bridge/tools/notes.py:272-277 | Matches of one note come in the order of its lines |
| BoundedSearch.NotesInOrder | src/devbox_bridge/tools/notes.py:265-277 | Matches of earlier notes come before those of later ones |
| BoundedSearch.SearchFiles | src/devbox_bridge/tools/filesystem.py:415-498 | The first max_matches events; truncated if and only if at least that many exist; a limit below 1 is refused |
| BoundedSearch.EventsExact | src/devbox_bridge/tools/filesystem.py:465-491 | The events are the matches of the output and nothing else, in order |
| BoundedSearch.EventsMembers | src/devbox_bridge/tools/filesystem.py:465-491 | An event is reported if and only if it is a match line of the output |

## Left out

- NotesConservation.NotesConserved: tells a commit by its message, because a replay that meets someone else's change to the same note can merge its content or follow it to a new name; NotesConservation.ContentConserved covers whole commits.
- NotesSync.ReplaysAs: which commits git finds upstream already, and what it merges, are arguments; a commit that nothing incoming overlaps is neither dropped nor changed.
- NotesSync.PullStep: what a rebase in progress and a timeout do to the working tree, and the merge that autostash makes, are arguments.
- NotesSync.WriteFile: a content with lone surrogates, a directory in the place of the note, a full disk and a detached HEAD are not modelled; the push of a detached vault is one that is not made.
- NotesSync.Cloned: other clones do not force-push, and nobody but the bridge commits in the vault.
- PathResolution.Resolve: a loop ends non-strict resolution with an error; what Path.resolve returns there depends on the Python version, so claims are about resolutions that meet no loop. The limit of 40 links, the special root of two slashes, relative project roots and changes of the tree between check and use are not modelled.
- AuditLog.AuditLogger.Log: timestamp, duration and client address of a line are not modelled, nor a failing rename, compression or clean-up; one call reads the clock once. RunIsClean and ServerLogIsClean are about arguments, not error messages.
- AuditLog.RunFates: from an empty directory; archives that were there at the start are only removed or replaced by rule, their own times being arbitrary.
- Server.UnloggedWrite: whether a transport delivers a text with a lone surrogate is not part of this model; to the log it is a text like any other.
- Server.ExtractBearerToken: a missing header is an empty one; x-forwarded-for and the client address are not modelled.
- CommandCheck.CheckDenyList: the six fixed regular expressions and the whitelist patterns are arbitrary predicates of the stripped text.
- BranchHeader.SearchCount: of the digits that the patterns accept, only the ASCII ones are read.
- Text.Lower: exact for characters whose lower case holds an ASCII letter, which is all that the needles compared with it need.
- BoundedSearch.NotesSearch: case folding is an arbitrary function; listing and sorting of the vault's files and splitting into lines are inputs.
- Porcelain.ParsePorcelainV1: the decoding of git's output and its newline translation happen before the parser and are not modelled.
- SHA-256 and the constant-time comparison: the hash is an arbitrary function and the comparison is equality.
- Threads: the locks make each limiter check and each log call one step.
- Subprocesses, git, ripgrep, gzip, sockets and the web framework: only their outcomes appear, as arguments.
- notes_list, notes_read, read_file, write_file, list_directory, git_diff, git_commit, the remaining system tools, configuration, environment filtering and the summaries of tool arguments: one-branch facts.
