# Verified models of the capture and sync protocols

This project models the parts of the repository that must stay correct across partial runs,
interruptions and reordering, and proves what they promise. Each `.dfy` file is one module, named
after what it models.

- **The spools.** `Spool` is the byte-offset reader both spool files share. `HookExec`, `HookPlan`,
  `HookEvents`, `HookSync` and `HookFiles` are the hook-execution spool: the four-state reader machine,
  the plan of one sync, what its events say, the protocol as a transition system, and the same protocol
  over the files and session objects. `ArtifactUpload`, `ArtifactFates`, `ArtifactSync` and
  `ArtifactFiles` do the same for the artifact spool, with the blobs, the uploaded-id set and every
  failure of a sync, and with emits of other processes between any two of its steps. `HookLoss` and
  `ArtifactLoss` say what is lost and what is not, `HookForward` and `ArtifactForward` when a watermark
  goes back, `HookVerdicts` how verdicts change as the spool grows and `ArtifactOnce` when an id is sent
  twice. `HookRuns` and `ArtifactRuns` hold the concrete runs in which the code loses, repeats or never
  reports something.
- **Capture.** `Tailer` is the transcript tailer over the bytes of a growing file, `Eviction` and `Daemon`
  the raw-mirror daemon, `Statusline` and `Pricing` the day's totals and the price lookup, `Luhn` the
  card-number check.
- **Elsewhere.** `Migrations` is the migration ledger of the integration tests, `SqlComment` the word
  wrap of the permission generator, `Unicode` the UTF-8 and UTF-16 facts, `EnvVars` the environment
  variable resolution, `EmitCheck` the emit and check commands, `Registry` the deprecation merge.

Run `dafny verify dfyconfig.toml` in this directory.

## What the proofs assume

- JSON and date parsing, `toLowerCase`, locale comparison, the candidate ladder of model ids and the
  transcript parser are parameters. So are the clock, the network's answers and the outcome of each read,
  unlink and write that the steps name.
- The hook wrapper appends whole newline-terminated lines, writes one `started` per execution before
  anything else of it, and at most one `finished`. `TornLineIsSplit` shows why whole lines matter.
- An emitter appends whole lines with new ids. Nothing is assumed of when its blob is there: that is part
  of the condition under which nothing is lost.
- One sync runs at a time. Appends may fall anywhere inside it.
- Transcripts are append-only and a deleted one does not come back under its name.
- No model id of the price table is the empty string.

## Where the code does not do what it says

- A spool line holding `null` is valid JSON, so it is not skipped as malformed; grouping then reads a field
  of null and throws. The comment at packages/cli/src/hook-exec-merge.ts:243-246 says that no bad line
  wedges the records after it. `GroupByExecId` and `PlanHookExecMerge` throw exactly when the window holds
  such a line, and `NullLineWedges` shows that no later run then ships anything; `NullLineShipsNothing` is
  the run from an empty spool.
- An execution reported incomplete lets the watermark pass its `started` line, and a `finished` that lands
  after that is grouped without its start. `FinishShipsExactly` says when a finish is reported: if and only
  if the sync reads from at or below the start. `FinishLandsLate` is a run from an empty spool that ends
  above it, and `FinishIsNeverReported` what follows.
- The artifact clean-up reads the spool before it unlinks (packages/cli/src/sync-cmd.ts:1104-1114), so an
  emit that finds its blob on disk and appends its record in between loses the blob
  (`LateEmitLosesItsBlob`, after `FirstUploads`). `AppendHarmsExactly` gives the exact condition: an append does harm if and only
  if its blob is not on disk or is among those the clean-up has still to unlink. The same end comes from
  an emit that is overtaken between its look for the blob and its append (`OvertakenEmitLosesItsBlob`),
  and from a late read that fails (`UnreadLateLosesItsBlob`, exactly when by `LateReadIsSafeExactly`).
- A blob that is on disk but fails to read counts as missing (packages/cli/src/sync-cmd.ts:1014-1020): its
  record is dropped and the watermark passes it (`UnreadBlobIsLost`). `UploadHarmsExactly` says when: some
  waiting record was not read and neither it nor an earlier record of the window stops the watermark.
- An emit whose append fails takes its blob back (packages/cli/src/emit-artifact-cmd.ts:211-218). Another
  emit of the same bytes may have recorded that blob by then, and loses it (`UndoneParkIsLost`).
- A watermark that cannot be read counts as 0, and the sync may then move it back. For artifacts it does
  so if and only if the watermark is positive and either the spool cannot be read
  (`UnreadWatermarkGoesBack`) or some record below it is answered 401 or fails for now
  (`ReadableSpoolGoesBack`); that is `PlanRetreatsExactly`. For hooks it does if and only if a group that
  starts below it is held back, or the spool cannot be read either (`StepRetreatsExactly`). Nothing is lost by
  it, but artifacts below the watermark are sent again when their blob is still there, and reported missing
  when it is not.
- After a 401 the artifact loop holds every later record before it looks whether the record is already
  uploaded (packages/cli/src/sync-cmd.ts:1000-1013), so the uploaded-id set that is written forgets those
  records. `RemembersExactly` gives the exact condition, `ForgottenIsResentOrReportedLost` the cost, and
  `ExpiredKeyUploadsTwice` a run in which every write lands and one artifact is accepted twice.
- The emit check compares decoded text, so a file whose bytes differ from what an emit would write can
  read the same: `StrayByteIsMasked` is a check that reports nothing before an emit that rewrites the file.
  `MaskedExactly` says for which text this can happen (it holds a replacement character), `CheckIsExact`
  and `CleanExactlyWhenUpToDate` what the check means with and without it. Text with a lone surrogate
  cannot be written as it is, and the check reports it after every emit (`EmitSettles`).
- The price table is a plain object, so an id such as "constructor" resolves to what the object inherits,
  as an exact match (`ConstructorHasAPrice`; exactly when, by `GuessesExactly`).
- The tailer's checkpoint is called a byte offset but counts the decoded text, in which a stray byte becomes
  a three-byte replacement character. `OffsetIsByteOffsetExactly` says when the two agree, and
  `StrayByteOvershoots` gives a file where they do not. `advanced` is right all the same.
- The statusline parses only transcripts touched today
  (packages/capture/src/statusline-state.ts:11-14). `FilterIsSoundExactly` says when that gives the totals of
  parsing all: a stale session priced only as a whole, or with an undated priced turn, counts towards
  today when it is parsed and not at all when it is skipped (`StaleSessionsCountWhenParsed`).
- The migration files are sorted so that two files may share a version
  (apps/integration-tests/clickhouse/setup-clickhouse.ts:148-149), but the ledger is keyed by version only.
  `SafeExactly` shows that interrupted runs are safe if and only if no file with statements to land is
  listed behind another of its version.
- A model that comes back upstream is written with a null deprecation date and, one run later, with
  upstream's own value. `SettlesAtOnceExactly` says when the file settles at once, `ResurrectedFlaps` is
  one that does not, and `ThirdRunChangesNothing` says that it always does by the second run.

## Model

| member | source | states |
|---|---|---|
| Spool.ReadLinesSince | packages/cli/src/artifact-spool.ts:114-143 | the reader loop returns the records of the lines from the clamped offset on; a missing file reads as nothing and echoes the offset |
| Spool.ReadingComposes | packages/cli/src/hook-exec-merge.ts:247-272 | reading on from any line boundary gives what reading straight through gives |
| Spool.OffsetsIncrease | packages/cli/src/artifact-spool.ts:124-141 | offsets are line starts inside the file, strictly increasing, and each record is what its own line parses to |
| Spool.AppendLine | packages/cli/src/artifact-spool.ts:39-43 | appending one whole line adds its record and leaves every earlier record and offset alone |
| Spool.WindowOfWhole | packages/cli/src/hook-exec-merge.ts:243-272 | the window above a boundary holds exactly the records at or above it |
| Spool.TornLineIsSplit | packages/cli/src/hook-exec-merge.ts:256-269 | consuming an unterminated last line stops off every boundary, and the completed line is never read at its own offset again |
| Unicode.ByteCutsAreTextCuts | packages/cli/src/hook-exec-merge.ts:257-260 | cutting UTF-8 bytes at 0x0A and cutting the text at newlines give the same lines (RFC 3629, section 3) |
| Unicode.DecodesWhatWasEncoded | packages/capture/src/tailer.ts:42 | the replacing decoder undoes encoding |
| Unicode.DecodeSplitsAtNewline | packages/capture/src/tailer.ts:42 | bytes that end in a newline decode on their own, whatever bytes follow, malformed or not |
| Unicode.ReadsBackExactly | packages/cli/src/emit-cmd.ts:167-183 | a string reads back as it was written if and only if it holds no lone surrogate |
| Unicode.TellingExactly | packages/cli/src/emit-cmd.ts:207-212 | only its own encoding reads as a string, and it does, if and only if the string holds neither a lone surrogate nor a replacement character |
| Unicode.AcceptedDecodes | packages/api-schemas/src/validators.ts:34-45 | the check accepts exactly what decodes, and re-encoding a decoded string gives it back |
| Unicode.EncodingsAreAccepted | packages/api-schemas/src/validators.ts:34-45 | every UTF-16 encoding is accepted and decodes to the text it encodes |
| Unicode.AcceptsExactlyEncodings | packages/api-schemas/src/validators.ts:26-45 | a string is accepted if and only if it is the UTF-16 encoding of some scalar values (RFC 2781, sections 2.1 and 2.2) |
| Unicode.StandardExamples | packages/api-schemas/src/validators.ts:26-45 | the examples the two standards give for their encodings |
| HookExec.VerdictRises | packages/cli/src/hook-exec-merge.ts:116-167 | as a group grows and time moves on its verdict only rises along defer, incomplete, aborted, completed, and a completed one stays the same |
| HookVerdicts.GroupsGrow | packages/cli/src/hook-exec-merge.ts:274-289 | under the writer's discipline a group only grows as lines are appended |
| HookVerdicts.VerdictsRiseAsSpoolGrows | packages/cli/src/hook-exec-merge.ts:116-167 | so for every append of bytes above a watermark, and later time, the verdict of each execution only rises and a completed one stays the same |
| HookVerdicts.FinishShipsExactly | packages/cli/src/hook-exec-merge.ts:274-353 | with the finish on the spool and the session merged, a sync ships a completed event of an attributable start if and only if it reads from at or below that start |
| HookVerdicts.PassedStartShipsNoMore | packages/cli/src/hook-exec-merge.ts:22-28 | once the watermark passed an execution's start, no later run whose watermark reads work ships anything of it |
| HookRuns.FinishLandsLate | packages/cli/src/hook-exec-merge.ts:153-166 | a run from an empty spool ships a start as incomplete, commits past it, and then gets its finish |
| HookRuns.FinishIsNeverReported | packages/cli/src/hook-exec-merge.ts:153-166 | from there no such run ships anything but incomplete for it |
| HookExec.GroupByExecId | packages/cli/src/hook-exec-merge.ts:274-289 | one group per execution in first-seen order; throws exactly on a null line |
| HookExec.GroupSound | packages/cli/src/hook-exec-merge.ts:274-289 | each part of a group is a line of the window, and an absent part is no line |
| HookExec.LastRecordCounts | packages/cli/src/hook-exec-merge.ts:274-289 | of several records of one kind the last one counts, and the last start fixes the offset |
| HookExec.FirstLineCounts | packages/cli/src/hook-exec-merge.ts:274-289 | a group without a start lies at its first line |
| HookExec.KeysAreFirstSeen | packages/cli/src/hook-exec-merge.ts:274-289 | the keys are the executions of the window, ordered by their first lines |
| HookPlan.PlanHookExecMerge | packages/cli/src/hook-exec-merge.ts:322-353 | the plan: each session's events in order, its least group offset, and the least of the file length and the deferred starts; `PlannedEventsExactly` spells the events out |
| HookEvents.PlannedEventsExactly | packages/cli/src/hook-exec-merge.ts:116-181 | a plan lists for a session exactly its executions that ended, or whose session did, or whose start is undated or eleven minutes old, each once in first-seen order; each event has the start's time, hook, command and non-empty tool use, and the duration, exit code and status of the finish, else of the abort, else of an incomplete hook as old as its start |
| HookPlan.CommitOffset | packages/cli/src/sync-cmd.ts:616-620 | the offset to persist is the least of the file length and the starts of all deferred or unmerged groups |
| HookLoss.VerdictsOfSyncsStrengthen | packages/cli/src/hook-exec-merge.ts:116-167 | over every run, re-shipped events of one execution never weaken, and once completed they are the same event |
| HookLoss.RunsLoseNothing | packages/cli/src/hook-exec-merge.ts:17-28 | over every interleaving of appends, plans and commits, also when reads fail, the watermark stays on a line boundary and passes no attributable execution that was not shipped |
| HookForward.StepRetreatsExactly | packages/cli/src/sync-cmd.ts:612-620 | a step moves the watermark back if and only if it commits while holding a group that starts below it, or can read neither file while it is positive |
| HookForward.RetreatNeedsFailedRead | packages/cli/src/hook-exec-merge.ts:208-221 | either needs a failed read of the watermark |
| HookForward.RunsGoForwardExactly | packages/cli/src/hook-exec-merge.ts:208-230 | over every run the watermark never moves back if and only if no step is such a retreat |
| HookForward.RunsGoForward | packages/cli/src/hook-exec-merge.ts:208-230 | so it does not while it can be read |
| HookLoss.NoExecutionIsLost | packages/cli/src/hook-exec-merge.ts:22-28 | from an empty spool, every attributable execution below the watermark was shipped to its own session |
| HookSync.CommitPassesShipped | packages/cli/src/sync-cmd.ts:612-620 | a start the commit offset passes was shipped by that sync |
| HookLoss.OldSpoolDrains | packages/cli/src/hook-exec-merge.ts:153-166 | a sync past every start time plus the ceiling, with all sessions merged, consumes the whole spool |
| HookLoss.NullLineWedges | packages/cli/src/hook-exec-merge.ts:243-289 | with a null line in the window no later run moves the watermark forward or ships anything |
| HookRuns.NullLineShipsNothing | packages/cli/src/hook-exec-merge.ts:243-289 | one such line in an empty spool and no run ever ships anything |
| HookLoss.ShippedAsPlanned | packages/cli/src/sync-cmd.ts:585-593 | a merged session receives exactly the events planned for it, in order |
| HookFiles.AppendHookExecEvents | packages/cli/src/hook-exec-merge.ts:193-199 | events are appended with sequence numbers following the highest in use |
| HookFiles.AppendedExactly | packages/cli/src/hook-exec-merge.ts:193-199 | what was there stays, and the events follow in order, numbered on from the highest number, from 0 when there is none |
| HookFiles.AppendedSeqsAreFresh | packages/cli/src/hook-exec-merge.ts:191-199 | appended numbers never collide with any other |
| HookFiles.MergeHookEvents | packages/cli/src/sync-cmd.ts:585-593 | each scanned session gets its planned events, and the merged set is those that got some |
| HookFiles.Files.Sync | packages/cli/src/sync-cmd.ts:554-620 | a sync over the files, with appends during it and either read failing, gives each scanned session exactly its planned events and is a step of the protocol whose commit obeys the rule; it throws exactly on a null line and then changes nothing; without a readable spool file it ships nothing and writes back the watermark it read |
| ArtifactUpload.UploadAll | packages/cli/src/sync-cmd.ts:982-1098 | the upload loop, proved against the record-by-record specification, of which `AnswerDecides` and the rows after it say what it means |
| ArtifactUpload.EveryRecordHasAFate | packages/cli/src/sync-cmd.ts:998-1098 | each record is sent, dropped, remembered, missing its blob, or held with its blob and its place |
| ArtifactUpload.SendsFreshIds | packages/cli/src/sync-cmd.ts:1005-1013 | a pass sends each id once, none it remembers, and remembers all it sends |
| ArtifactUpload.DropsOnlyTheDead | packages/cli/src/sync-cmd.ts:1080-1094 | only a status in the 400s other than 401, 408 and 429, or another failure more than fourteen days past the record's time, drops a record |
| ArtifactUpload.PassingFailuresAreHeld | packages/cli/src/sync-cmd.ts:1080-1098 | a record no more than fourteen days old whose upload gets no answer, 408, 429 or a status outside the 400s is held |
| ArtifactFates.AnswerDecides | packages/cli/src/sync-cmd.ts:1062-1098 | a record that is tried before any 401 is sent if and only if it is accepted, dropped if and only if its status is in the 400s but not 401, 408 or 429 or it fails otherwise and is more than fourteen days old, and left for later with its blob and its place if and only if it is answered 401 or fails otherwise while younger |
| ArtifactFates.ExpiryHoldsTheRest | packages/cli/src/sync-cmd.ts:1000-1004 | after a 401 every record is left for later, whatever it is |
| ArtifactFates.RemovableExactly | packages/cli/src/sync-cmd.ts:1099-1114 | a blob may go if and only if an uploaded or dropped record has it and no record left for later or appended since does |
| ArtifactUpload.OffsetExactly | packages/cli/src/sync-cmd.ts:998-1098 | the offset to commit passes a record if and only if neither it nor an earlier one is answered 401 or fails for now |
| ArtifactUpload.MissingExactly | packages/cli/src/sync-cmd.ts:999-1020 | a record is reported missing if and only if no earlier one was answered 401, it is not remembered and its blob was not read |
| ArtifactUpload.SentExactly | packages/cli/src/sync-cmd.ts:998-1068 | which records a pass sends and which ids it goes on to remember, in both directions |
| ArtifactUpload.ForgetsExactly | packages/cli/src/sync-cmd.ts:1000-1013 | a remembered id is forgotten if and only if a record of the window before it is uploaded and answered 401 |
| ArtifactSync.StepKeepsSound | packages/cli/src/sync-cmd.ts:998-1129 | whatever fails or falls in between, each step keeps the files and the running sync consistent: watermark and committed offset on line starts, remembered ids sent, everything done on record |
| ArtifactSync.BlobsChangeExactly | packages/cli/src/sync-cmd.ts:1107-1114 | a blob comes only by being parked, and goes only when an emit takes it back or the clean-up unlinks it with success |
| ArtifactLoss.StepHarmsExactly | packages/cli/src/sync-cmd.ts:998-1129 | a step leaves every waiting record its blob and its place if and only if a condition on its inputs holds, given for each kind of step |
| ArtifactLoss.AppendHarmsExactly | packages/cli/src/sync-cmd.ts:1100-1114 | an append does harm if and only if its blob is not on disk or the clean-up is still to unlink it |
| ArtifactLoss.UploadHarmsExactly | packages/cli/src/sync-cmd.ts:1014-1020 | a pass does harm if and only if it skips a waiting record it could not read with nothing stopping the watermark up to there |
| ArtifactLoss.ReadBlobsAreHeld | packages/cli/src/sync-cmd.ts:998-1098 | a pass that reads the blob of every waiting record harms none and holds the blobs of those it leaves |
| ArtifactLoss.LateReadIsSafeExactly | packages/cli/src/sync-cmd.ts:1100-1109 | after a pass that read every blob, the late read is safe if it works, and otherwise if and only if no record appended since the plan shares a blob to be unlinked |
| ArtifactLoss.RunsLoseNothingExactly | packages/cli/src/artifact-spool.ts:145-160 | over every run of emits and syncs, whatever fails or dies, nothing is lost all along if and only if every step meets its condition |
| ArtifactLoss.SyncLosesTheUnspared | packages/cli/src/sync-cmd.ts:1107-1129 | harm is real: a sync that then succeeds in everything loses exactly the records harmed by then |
| ArtifactForward.PlanRetreatsExactly | packages/cli/src/artifact-spool.ts:45-53 | a sync goes on to commit below the watermark if and only if it could not read it, it is positive, and the spool was not read or some record below it is answered 401 or fails for now |
| ArtifactForward.RunsGoForwardExactly | packages/cli/src/artifact-spool.ts:45-53 | over every run no sync sets out to move the watermark back if and only if no pass retreats, and then it never goes back |
| ArtifactForward.RunsGoForward | packages/cli/src/artifact-spool.ts:45-53 | so it does not while it can be read |
| ArtifactForward.UnreadWatermarkGoesBack | packages/cli/src/artifact-spool.ts:45-53 | the input with an unreadable spool: it writes 0 |
| ArtifactRuns.ReadableSpoolGoesBack | packages/cli/src/sync-cmd.ts:1095-1098 | the input with a readable spool: an upload below the watermark fails for now, and 0 is written |
| ArtifactLoss.NoArtifactIsLost | packages/cli/src/artifact-spool.ts:5-14 | over safe runs from an empty spool, each record is uploaded, dropped, or above the watermark with its blob on disk |
| ArtifactLoss.MissingIsDoneOrUnread | packages/cli/src/sync-cmd.ts:1014-1020 | a record is reported missing only if it was uploaded or dropped before, or its blob is on disk and failed to read |
| ArtifactLoss.BlobGoneIsNeverSent | packages/cli/src/sync-cmd.ts:1014-1020 | a waiting record whose blob is gone is uploaded by no run in which nobody parks its bytes again |
| ArtifactLoss.BlobGoneIsPassed | packages/cli/src/sync-cmd.ts:1014-1020 | any such record the pass comes to with nothing stopping the watermark before it is reported missing and passed |
| ArtifactOnce.RemembersExactly | packages/cli/src/sync-cmd.ts:1115-1122 | the id set about to be written covers the uploads at or above the offset about to be committed if and only if no 401 came ahead of a remembered record |
| ArtifactOnce.StepKeepsExactly | packages/cli/src/sync-cmd.ts:982-1129 | from a state in which ids were sent once and are remembered, a step keeps that if and only if a condition on its inputs holds, given for each failing read, write and death |
| ArtifactOnce.UploadKeepsExactly | packages/cli/src/sync-cmd.ts:998-1122 | a pass keeps it if and only if it accepts no sent record again and comes, before any 401, to each remembered one that the watermark will not pass |
| ArtifactOnce.RunsSendOnceExactly | packages/cli/src/artifact-spool.ts:75-79 | over every run no id is sent twice and every sent one stays remembered all along if and only if every step meets its condition |
| ArtifactOnce.FaithfulRunsSendOnce | packages/cli/src/artifact-spool.ts:75-79 | in particular over every run whose checkpoint reads and writes work and that sees no 401 ahead of a remembered record |
| ArtifactOnce.ForgottenIsResentOrReportedLost | packages/cli/src/artifact-spool.ts:75-79 | a forgotten id is uploaded again if its blob is there and reported lost if not |
| ArtifactRuns.FirstUploads | packages/cli/src/sync-cmd.ts:998-1068 | an emit and a sync from an empty spool reach the state the next three runs start from |
| ArtifactRuns.LateEmitLosesItsBlob | packages/cli/src/sync-cmd.ts:1104-1114 | an emit between the late read and the unlink ends without its blob |
| ArtifactRuns.UnreadLateLosesItsBlob | packages/cli/src/sync-cmd.ts:1104-1114 | so does one before a late read that fails |
| ArtifactRuns.OvertakenEmitLosesItsBlob | packages/cli/src/emit-artifact-cmd.ts:183-210 | so does one overtaken between its look for the blob and its append |
| ArtifactRuns.SecondIsLostForGood | packages/cli/src/sync-cmd.ts:1014-1020 | in that state no run uploads the artifact unless its bytes are parked again |
| ArtifactRuns.UnreadBlobIsLost | packages/cli/src/sync-cmd.ts:1014-1020 | one failed read of a blob on disk drops its record for good |
| ArtifactRuns.UndoneParkIsLost | packages/cli/src/emit-artifact-cmd.ts:209-218 | an emit that takes its blob back takes it from another emit of the same bytes |
| ArtifactRuns.ExpiredKeyUploadsTwice | packages/cli/src/sync-cmd.ts:1000-1004 | three syncs, the second with an expired key, upload one artifact twice |
| ArtifactFiles.Files.Emit | packages/cli/src/emit-artifact-cmd.ts:176-222 | an emit parks its blob unless it is there, appends, and takes back what it parked when the append fails |
| ArtifactFiles.Files.CleanUp | packages/cli/src/sync-cmd.ts:1107-1114 | the unlink loop, with emits between any two unlinks, is a run of unlink steps over exactly the blobs set out |
| ArtifactFiles.Files.FinishSync | packages/cli/src/sync-cmd.ts:982-1129 | the rest of a sync over the files is a run, allowed when its emits are, whose own steps are upload, late read, unlinks, id set and commit in that order, with emits between any two of them; the pass finds just the blobs on disk that read |
| ArtifactFiles.Files.PlanUpload | packages/cli/src/artifact-spool.ts:153-160 | the plan is the window above the watermark; a failed read of either file gives what the code falls back to |
| Tailer.LongestCompletePrefix | packages/capture/src/tailer.ts:59-65 | the complete prefix is the longest prefix of whole lines |
| Tailer.CountLines | packages/capture/src/tailer.ts:67-72 | the counting loop counts the newlines |
| Tailer.NewlinesAreCounted | packages/capture/src/tailer.ts:67-72 | that is the number of positions that hold one |
| Tailer.TailTranscript | packages/capture/src/tailer.ts:37-57 | only the complete prefix is parsed; the checkpoint and the advanced flag |
| Tailer.CompleteIsWholeLines | packages/capture/src/tailer.ts:59-65 | the complete text is that of the bytes up to the last newline byte, whatever half line or half character follows |
| Tailer.AppendAddsLines | packages/capture/src/tailer.ts:42-57 | every append of bytes extends the complete text, by some text if and only if it holds a newline |
| Tailer.AdvancedExactlyWhenGrown | packages/capture/src/tailer.ts:42-57 | against the checkpoint of any earlier state, advanced is true if and only if the bytes written since hold a newline, and otherwise session and checkpoint are the earlier ones |
| Tailer.IncrementalEqualsFull | packages/capture/src/tailer.ts:9-15 | however a file is cut into writes, a reader that tails after each with its last checkpoint and keeps its session when nothing advanced holds what one full tail gives |
| Tailer.OffsetIsByteOffsetExactly | packages/capture/src/tailer.ts:19-22 | the checkpoint is the byte offset past the last newline if and only if every malformed sequence before it is three bytes long |
| Tailer.EncodedKeepsWidths | packages/capture/src/tailer.ts:19-22 | for well-formed UTF-8 it always is |
| Tailer.StrayByteOvershoots | packages/capture/src/tailer.ts:19-22 | a file with one stray byte whose checkpoint is not that offset |
| Eviction.ShortestPrefix | packages/capture/src/daemon.ts:183-202 | with no failure the pass stops at the first prefix, oldest first, that meets the cap |
| Eviction.EvictedExactly | packages/capture/src/daemon.ts:183-202 | whatever fails to unlink, the pass deletes the shortest prefix of the rest that meets the cap, or all of it |
| Eviction.SortKeepsListing | packages/capture/src/daemon.ts:191 | sorting keeps the listing and puts the oldest first |
| Daemon.CaptureDaemon.EvictIfNeeded | packages/capture/src/daemon.ts:184-202 | the loop deletes what the specification says, and its running total is the bytes left |
| Daemon.RunningTotal | packages/capture/src/daemon.ts:189-198 | the running total is the bytes still present whichever unlinks fail |
| Daemon.EvictionMeetsCap | packages/capture/src/daemon.ts:183-202 | the pass ends at or under the cap, unless everything left failed to unlink |
| Daemon.EvictsShortestOldestPrefix | packages/capture/src/daemon.ts:183-202 | what goes is the shortest oldest-first prefix that makes the rest fit |
| Daemon.NewestSurvives | packages/capture/src/daemon.ts:135-147 | a strictly newest copy that fits the cap on its own survives a pass without failures |
| Daemon.NewestSurvivesExactly | packages/capture/src/daemon.ts:183-202 | a strictly newest file survives if and only if it is empty, fails to unlink, or fits the cap beside the files that fail to unlink |
| Daemon.CaptureDaemon.MirrorFile | packages/capture/src/daemon.ts:119-147 | one mirror step copies if and only if the transcript is included and there, the copy works, and the mirror has fewer bytes of it or an older time; then the copy is in the mirror with all else unless what the walk sees is over the cap, and a newest copy stays as `NewestSurvivesExactly` says; otherwise nothing changes |
| Daemon.MirrorStepExactly | packages/capture/src/daemon.ts:119-147 | the same for a step of the transition system |
| Daemon.CaptureDaemon.RescanNow | packages/capture/src/daemon.ts:150-156 | after a sweep, with sources growing and vanishing and copies failing during it, every included transcript that was there and whose copy did not fail is mirrored with all it held at its turn, unless from that turn on a pass that was over the cap took its copy |
| Daemon.MirrorHoldsPrefixes | packages/capture/src/daemon.ts:119-147 | over every run each mirror file is a prefix of what its source has held |
| Daemon.StepKeepsPrefixes | packages/capture/src/daemon.ts:119-147 | no step shrinks a mirror file it leaves in place |
| Daemon.NeverFallsBehind | packages/capture/src/daemon.ts:128-147 | the skip happens only when the mirror equals the source, and a copy leaves it equal |
| Daemon.CopyOutlivesSource | packages/capture/src/daemon.ts:41-46 | a copy goes only through an eviction over the cap, never through its source |
| Daemon.StepsStayUnderCap | packages/capture/src/daemon.ts:135-147 | once at or under the cap every step keeps what its walk sees there |
| Daemon.UnseenStay | packages/capture/src/daemon.ts:158-189 | files the walk cannot size are never evicted, and the pass treats the rest as if it were all |
| Migrations.Database.RunMigrations | apps/integration-tests/clickhouse/setup-clickhouse.ts:108-191 | the loops, stopped before any command, do what the run specification says |
| Migrations.ListingAscends | apps/integration-tests/clickhouse/setup-clickhouse.ts:142-151 | the sorted listing holds the directory's files, in ascending version order when versions are distinct |
| Migrations.ListingIsOrdered | apps/integration-tests/clickhouse/setup-clickhouse.ts:142-151 | the listing has the directory's files by version, those of one version by name |
| Migrations.LedgerComesAfterTables | apps/integration-tests/clickhouse/setup-clickhouse.ts:108-128 | over any interrupted runs a database without a ledger gets one only once its tables are gone, and until then nothing lands on it |
| Migrations.RunsSurviveInterruption | apps/integration-tests/clickhouse/setup-clickhouse.ts:138-191 | with distinct versions, over any number of interrupted runs, ledger and history hold whole files in listing order, and a finished run has recorded all |
| Migrations.RunsCompleteInVersionOrder | apps/integration-tests/clickhouse/setup-clickhouse.ts:138-191 | for any directory with distinct versions the ledger is always ascending, and a finished run has recorded every version of the directory |
| Migrations.RecordedMeansLanded | apps/integration-tests/clickhouse/setup-clickhouse.ts:178-183 | right before a recorded file's row landed the statements of the file that are not left out, all of them, in order and no other; only later files come after |
| Migrations.RepeatedVersionIsSkipped | apps/integration-tests/clickhouse/setup-clickhouse.ts:142-156 | two files of one version: an interruption between them loses the second for good |
| Migrations.SafeExactly | apps/integration-tests/clickhouse/setup-clickhouse.ts:138-191 | interrupted runs land every file if and only if no file with statements is listed behind another of its version |
| SqlComment.SqlCommentOf | packages/db-types/generate-permissions.ts:131-145 | the loop builds the greedy wrap of the split text |
| SqlComment.WrapIsCorrectAndOptimal | packages/db-types/generate-permissions.ts:130-145 | the lines join back to the words, each fits 76 code units or is one word, and no other breaking has fewer |
| SqlComment.LeadingBlankIsInvisible | packages/db-types/generate-permissions.ts:132-142 | leading white space leaves no trace |
| SqlComment.TrailingBlank | packages/db-types/generate-permissions.ts:132-143 | trailing white space adds at most one blank, and only where it fits |
| SqlComment.InnerWordsAreNonEmpty | packages/db-types/generate-permissions.ts:132 | only the first and the last word of a split can be empty |
| SqlComment.WordsAreTheRuns | packages/db-types/generate-permissions.ts:132 | the words are the maximal runs of non-blank text |
| SqlComment.SplitIsWords | packages/db-types/generate-permissions.ts:132 | the split gives the runs of non-blank text, with an empty word for white space at either end |
| SqlComment.CommentIsCorrectAndOptimal | packages/db-types/generate-permissions.ts:130-145 | for every text the lines are its words, broken to fit 76 code units with the fewest lines, but for one blank that trailing white space may leave on the last line |
| Luhn.LuhnValid | packages/capture/src/scrub-secrets.ts:87-100 | the right-to-left loop equals the recursive definition |
| Luhn.SumByPairs | packages/capture/src/scrub-secrets.ts:87-100 | from the right, of each two digits the last counts with its value and the other with the digit sum of its double |
| Luhn.CheckDigitIsUnique | packages/capture/src/scrub-secrets.ts:87-100 | each prefix has exactly one valid check digit |
| Luhn.OneWrongDigitIsDetected | packages/capture/src/scrub-secrets.ts:87-100 | changing any one digit breaks validity |
| Luhn.SwapIsDetectedUnlessZeroNine | packages/capture/src/scrub-secrets.ts:87-100 | swapping two different neighbours goes unnoticed if and only if they are 0 and 9 |
| EnvVars.ResolveEnvVarRows | packages/env-kind/index.ts:170-191 | one row per key that has one, ordered by their first candidates; under the unique indexes the row set on the environment, else that on its kind, else that on every kind |
| EnvVars.NoTies | packages/env-kind/index.ts:163-167 | under the unique indexes two candidates of a key never tie |
| EnvVars.WinnerIsUniqueTop | packages/env-kind/index.ts:153-191 | the winner is the one row that outranks every other candidate |
| EnvVars.BestWins | packages/env-kind/index.ts:153-191 | for each key: the row set on the environment, else the one on its kind, else the one on every kind |
| EnvVars.TiesGoToTheFirst | packages/env-kind/index.ts:184-188 | without the indexes a tie would go to the first row |
| EnvVars.OrderDoesNotMatter | packages/env-kind/index.ts:163-191 | every permutation of the rows gives the same winners |
| EnvVars.EnvNamesAreInjective | packages/env-kind/index.ts:208-214 | ids without underscores give each environment and key its own vault name |
| EnvVars.ScopesAliasExactly | packages/env-kind/index.ts:208-223 | an environment name equals a kind name only for the id "kind" and one key |
| EmitCheck.Repository.WriteOutputs | packages/cli/src/emit-cmd.ts:167-183 | the two write loops leave the disk the specification gives |
| EmitCheck.Repository.RunCheck | packages/cli/src/emit-cmd.ts:303-333 | the drift list is every drifting output and every orphan in sorted order, none when the tree has errors, and the exit code is 1 on errors or drift |
| EmitCheck.MaskedExactly | packages/cli/src/emit-cmd.ts:207-212 | some disk masks a change to a file if and only if its text holds a replacement character and no lone surrogate |
| EmitCheck.CheckIsExact | packages/cli/src/emit-cmd.ts:207-222 | with separate destinations the missing paths are exactly those an emit would create, and the drifted ones exactly the existing ones it would change and that are not masked, or whose text cannot be written |
| EmitCheck.StrayByteIsMasked | packages/cli/src/emit-cmd.ts:207-212 | a disk on which the check reports nothing and an emit changes a file |
| EmitCheck.EmitSettles | packages/cli/src/emit-cmd.ts:167-222 | a second emit changes nothing, and a check after an emit reports no output if and only if no text holds a lone surrogate |
| EmitCheck.CleanExactlyWhenUpToDate | packages/cli/src/emit-cmd.ts:319-333 | no output is reported if and only if every path an emit would change is masked and all text can be written; so a clean tree is up to date if and only if nothing is masked |
| EmitCheck.CleanExactlyWhenConsistent | packages/cli/src/emit-cmd.ts:167-222 | where destinations repeat, among files, copies or both, the check after an emit is clean if and only if the outputs of each path agree and all text can be written |
| Registry.ModelMap.HandleDeprecation | scripts/sync-model-registry.ts:586-631 | the two passes give the merged registry and the report |
| Registry.LosesNothing | scripts/sync-model-registry.ts:580-622 | known ids keep their order, new ones follow in merge order, gone ones carry a date that is never bumped |
| Registry.EntriesExactly | scripts/sync-model-registry.ts:597-622 | a listed model has upstream's fields and deprecation, but null when it lost its date; a gone one keeps its fields, and its date or gets today's |
| Registry.ReportExactly | scripts/sync-model-registry.ts:597-613 | the report lists in order exactly the models that left without a date, and those that had one and are back without |
| Registry.SecondRunReportsNothing | scripts/sync-model-registry.ts:586-631 | a second run of the same upstream reports nothing and keeps the order |
| Registry.SettlesAtOnceExactly | scripts/sync-model-registry.ts:600-606 | the second run's entries equal the first's if and only if every resurrected model had a null date upstream |
| Registry.ResurrectedFlaps | scripts/sync-model-registry.ts:600-606 | a model whose null date turns into no date on the second run |
| Registry.ThirdRunChangesNothing | scripts/sync-model-registry.ts:586-631 | from the second run on nothing changes |
| Pricing.Resolver.ResolvePrice | packages/capture/src/pricing.ts:92-114 | a memoised answer is what a fresh lookup would give |
| Pricing.Resolver.ResolveAll | packages/capture/src/pricing.ts:87-114 | so is every answer in any sequence of queries |
| Pricing.LongestPrefix | packages/capture/src/pricing.ts:69-85 | the fallback is a longest table id at a boundary, and none exactly when none is |
| Pricing.BoundaryExactly | packages/capture/src/pricing.ts:74-80 | a boundary prefix is the query itself up to case, or is followed by a dash, an at sign or a colon |
| Pricing.AnswersExactly | packages/capture/src/pricing.ts:92-114 | the price is that of the matched id; it is by prefix if and only if no candidate is taken, and then from the first of the longest; else the first candidate taken decides, and the answer is exact if and only if the matched id is the query |
| Pricing.UnknownExactly | packages/capture/src/pricing.ts:92-114 | a price is unknown if and only if no candidate is in the table or names an inherited member, and no id prefixes the query |
| Pricing.GuessesExactly | packages/capture/src/pricing.ts:54-114 | the answer is no price of the table if and only if the first candidate taken names an inherited member that is not listed |
| Pricing.ConstructorHasAPrice | packages/capture/src/pricing.ts:100-104 | the id "constructor" is such an input |
| Statusline.CostSince | packages/capture/src/statusline-state.ts:140-153 | the loop computes the spend since a boundary, or the session total when no turn is priced |
| Statusline.CostExactly | packages/capture/src/statusline-state.ts:129-153 | the spend is the sum of the prices of the turns not known to lie before the boundary, by their own time or, without one, the session's start; with no priced turn it is the session total |
| Statusline.CostSplits | packages/capture/src/statusline-state.ts:129-153 | cost since a boundary splits additively over any later one |
| Statusline.ComputeStatuslineState | packages/capture/src/statusline-state.ts:161-213 | the recompute loop computes the filtered totals, counts and session costs |
| Statusline.TotalsExactly | packages/capture/src/statusline-state.ts:177-204 | an agent's total sums its transcripts touched today, the count is of those that are a session's own and spent something, the backlog of all own transcripts newer than the last sync |
| Statusline.SessionsExactly | packages/capture/src/statusline-state.ts:188-204 | each session touched today has the total of its last transcript |
| Statusline.FilterIsSound | packages/capture/src/statusline-state.ts:11-14 | for datable transcripts the modification-time filter changes no total, no count and no backlog |
| Statusline.FilterIsSoundExactly | packages/capture/src/statusline-state.ts:11-14 | with no negative price, the filtered totals equal the full ones if and only if each stale transcript has a priced turn and dates every turn that cost something before midnight, or has no priced turn and no positive total; the counts then agree too |
| Statusline.StaleSessionsCountWhenParsed | packages/capture/src/statusline-state.ts:140-153 | two sessions of another day that count towards today only when parsed |

## Left out

- Two syncs running at once.
- An append that is torn or interleaved with another one; the writers append whole lines.
- The text of the incomplete-hook message and the rest of the event envelope; the model keeps its duration.
- Locating the turn an artifact came from (`resolveArtifactTurnIndex`), which does not affect what is uploaded.
- Session batching, retry and the transcript watermark of the sync command.
- Temporary copies a failed mirror step leaves behind, which the byte cap does not count.
- A file that vanishes between the walk and its second `stat`, which ends an eviction pass before it starts.
- Debounce timers and file watching; a mirror step is the unit of the daemon's model.
- Migration files whose name has no numeric prefix, and the splitting of SQL text into statements.
- A statement that lands although its request fails counts as a stop right after it.
- The seed validation, the two permission emitters and the replacement of the generated region.
- Secret patterns, home paths and the other scrubbers.
- The registry fetchers, `mergeModels`, `sanitizeModels` and the changelog; ids that look like integers, which JavaScript objects reorder.
- Floating-point rounding of costs; the model uses real numbers.
- The directory walks, the orphan scan's header parsing and the rendering of emit and check.
