# Free Whisper: a verified model of its core logic

Free Whisper is a desktop dictation application. It records speech, sends it to a local worker, corrects the
transcript with a user lexicon, keeps a revertible history and installs the models it needs. This project models the
parts of it whose behaviour is hard to see from any single function, and proves what they promise, over every input,
every interleaving and every crash point. `dafny verify dfyconfig.toml` checks everything.

## What is modelled

**Corrections and history.** `Text` gives text as Unicode scalar values with UTF-8 widths. `Search` is the leftmost,
non-overlapping substring search and the search through case-folded text with a span map back to the raw characters.
`Corrections` finds, orders, selects and applies candidates with a byte cursor, and rebuilds text from stored
character offsets; `CorrectionLaws` proves that the selection is the only justified one and that rule order is
irrelevant, `CorrectionChoice` which proposal wins and what text is left, told without the comparator and the loop,
and `RenderLaws` exactly when the two forms agree. `TranscriptStore` is the transcript repository with its two tables
and its JSON copy; `TranscriptFlow` joins the two: correct, save, revert everything, and the raw text is back.
`LexiconRules` takes the rules from a stored lexicon and proves that they meet what those theorems ask of rules.

**Desktop jobs.** `Capture` is the microphone slot: a coordinator and a handle slot under two locks, with a cancel
that works in two separate steps. `Processing` is the one-job inference slot with its one-job queue and notification.
Each critical section is one atomic step; a run is any sequence of steps by any number of jobs.

**Model installation.** `ModelInstall` is the resumable download and the staged activation. Every file operation may
fail, be the only one that fails, be the last one before a crash, or be preceded by another process installing the
same model or one below it. `ModelPath` is the derivation of a model's directory.

**Worker.** `Wav` validates and wraps audio; `WavFiles` tells its verdicts from files as they are written.
`RateLimiter` is the sliding-window limiter, `StartGate` the double-checked start of the inner process with what every
caller has been told about the child it gets or stops.

**Lexicon transfer.** `LexiconValidation` is the normalising constructor, `Csv` the printer and the reader's state
machine (section 2 of RFC 4180), `LexiconCsv` the exported sheet, `LexiconCsvImport` the grouping import, `SheetLaws`
which sheets it accepts and what becomes of their rows, `LexiconImport` the de-duplicating import into the tables,
`LexiconImportLaws` what it guarantees, and `LexiconTransfer` the whole way round: an export imported into the same
lexicon changes nothing, and imported into an empty one restores it, exactly when no two entries share a grouping key.

**Search, prompts and voice.** `LikeSearch` is the escaped LIKE search in the order of the stored time texts of
`StoredTime` (section 5.6 of RFC 3339), `Prompts` the choice of prompt terms against the worker's own check, `Voice`
and `VoiceLaws` the capture buffer, the streaming detector and the batch analysis; `VoiceVerdicts` tells what is
reported from the detector's verdicts alone.

`Results`, `Sorting` and `Lexicon` hold shared datatypes, the stable sort that specifies `sort_by`, and the orders in
use.

Code that changes state is a class whose methods are proved against pure functions; the laws are lemmas about those
functions. Loops are loops, with invariants.

## What the proofs found

- A cancelled job that waits for the processing slot can consume the only notification, so that another job waits
  although the slot is free (`Processing.CancelCanStrand`). This is the only way: a step strands a job exactly when it
  takes a cancelled, just notified job out of its loop while the slot is free, some job relies on a notification, and
  none is stored, owed or in another job's hands (`Processing.StrandsExactly`).
- While the cancel of a recording is between its two steps, the next recording's commit meets the "occupied audio
  handle slot" error; at no other time (`Capture.OccupiedExactlyDuringCancel`, with a run in
  `Capture.OccupiedCanBeMet`).
- Four situations are not left by repeating an install, whatever the servers send; each comes with a run.
  - A crash while the resume metadata is being rewritten beside a partial leaves torn metadata
    (`ModelInstall.TornMetadataBlocks`), until it is removed or another process has installed the model.
  - A complete partial with the wrong content is never discarded (`ModelInstall.WrongContentBlocks`).
  - The first test asks for the model's file, the activation for its directory, so that a directory without the file
    always ends in "destination exists": after a manifest update that renames the file
    (`ModelInstall.RenamedFileBlocks`), or for an id below which another model is installed
    (`ModelPath.DirectoriesNest`).
  - The directory of the id `.downloads` is one that the install creates itself
    (`ModelInstall.DownloadDirectoryBlocks`, `ModelPath.DownloadsExact`).
- The limiter reads the clock before it takes the lock. If readings can reach the queue late by `d`, at most 20
  accepted requests are guaranteed for intervals of 60 seconds less `d` and for no longer ones: 20 calls at once, one
  60 seconds later and one whose reading is a nanosecond older are all accepted (`RateLimiter.LatenessExact`).
- History is sorted by the text of its times, with as many subsecond digits as needed. Two texts are out of order
  exactly when they fall into one second and the digits of one continue those of the other, as `.5` and `.52`
  (`StoredTime.TextOrderExact`); a whole second sorts as newer than everything within it
  (`StoredTime.WholeSecondSortsLast`).
- The sheet's grouping key joins fields with a bar. Term `a|b` in language `c` and term `a` in language `b` with
  category `c|` share a key (`LexiconCsvImport.BarCollides`). Both pass validation, and a lexicon that holds both is
  not restored by its own export (`LexiconTransfer.BarsLoseAnEntry`). Export and import are inverse exactly when no
  two keys collide (`LexiconCsvImport.ExportImport`, `LexiconTransfer.ExportRestores`).
- A capture callback that ends inside a frame loses the rest of that frame, whatever follows
  (`VoiceLaws.BrokenFrameIsLost`); splitting the stream is harmless exactly between frames or when the capture is
  finished (`VoiceLaws.SplitExact`).
- Rendering gives back the text of the correction pass for all random ids exactly when empty candidates at one place
  have replacements that commute (`RenderLaws.RenderRebuildsExactly`). Rules with empty variants can break this
  (`RenderLaws.EmptyVariantsDisagree`); the rules of a stored lexicon never do (`LexiconRules.StoredLexiconCorrects`).
- A variant that ignores case is looked up by a composed key in a folded text that is not composed. It is found in its
  own text if and only if composing its folded text changes nothing (`LexiconRules.VariantFindsItself`); the letter j
  with caron is accepted as a variant and never found (`LexiconRules.ComposedKeyIsNotFound`).
- The directory of one model id can lie inside another's: id `a/b` is inside id `a` (`ModelPath.DirectoriesNest`).

## Parameters and assumptions

- Case folding is any function from characters to non-empty strings; word boundaries are any set of character
  boundaries that contains both ends of the text. Canonical composition is any function; where it matters, it is
  assumed to keep ASCII text and to stay composed when whitespace is collapsed.
- Identifiers are numbers with the order of the originals. New ones are drawn from a source that the theorems assume
  never repeats itself or a stored one, wherever they need it.
- Composition and folding never make a non-empty text empty, where a theorem needs variants that are not empty.
- Number, boolean and id formats of the sheet are a bundle of functions that read back what they print. Debug output
  of a scope is any function, assumed injective only in `LexiconTransfer.NoBarsDistinct`.
- The content hash is any function. A trusted server always sends the content named by the manifest, as the rest after
  a range request or as a whole (sections 14.2 and 15.3.7 of RFC 9110); other servers may send anything.
- Which file operation fails, crashes or meets another process is arbitrary; a run may also be planned to crash after a
  number of operations, so that a concrete bad run can be shown.
- The voice detector is any deterministic state machine over frames that may reject a frame. Samples are reals.
- Clock readings of the rate limiter arrive in any order; the theorems say how late they may be.
- Addresses of spawned children are distinct.

## Model

| member | source | states |
|---|---|---|
| `Text.OffsetsInverse` | crates/lexicon/src/lib.rs:477-491 | byte-to-character and character-to-byte conversions are inverse on every character boundary and every character position that fits 32 bits |
| `Text.BoundaryOrder` | crates/lexicon/src/lib.rs:477-491 | the character count of byte boundaries keeps and reflects their order |
| `Text.TrimExact` | crates/storage/src/lib.rs:902-904 | the trimmed text is the only text without whitespace at its ends that is left when whitespace is cut off at both ends |
| `Search.MatchIndicesLeftmost` | crates/lexicon/src/lib.rs:405-411 | reported matches are real, disjoint and leftmost: every occurrence starts inside a reported one, for the empty needle too |
| `Search.ExactSearchSound` | crates/lexicon/src/lib.rs:405-411 | every case-sensitive range lies on character boundaries and slices out exactly the variant text |
| `Search.NewFoldedText` | crates/lexicon/src/lib.rs:440-456 | the one-pass loop builds the folded text and, for every raw character, the byte span of its folding |
| `Search.FoldedSearchSound` | crates/lexicon/src/lib.rs:458-469 | every folded match is a non-empty run of whole raw characters that folds exactly to the needle; matches are disjoint and ordered, even when a character folds to several |
| `Search.FoldedSearchComplete` | crates/lexicon/src/lib.rs:458-469 | every leftmost folded match whose two ends are ends of whole folded characters is reported, as exactly those raw characters |
| `Corrections.CollectCandidates` | crates/lexicon/src/lib.rs:291-302 | the rule loop stops at the first variant of another entry, otherwise gathers the candidates of every rule in order |
| `CorrectionLaws.CandidatesExact` | crates/lexicon/src/lib.rs:399-424 | a candidate exists exactly when an enabled rule's variant is found between two word boundaries of a text that has a word |
| `Corrections.CandidateAntisymmetric` | crates/lexicon/src/lib.rs:304-311 | the comparator is total and only identical candidates are equal under it |
| `Corrections.SelectGreedily` | crates/lexicon/src/lib.rs:313-320 | the loop over `next_free_byte` computes the greedy selection |
| `CorrectionLaws.SelectionExact` | crates/lexicon/src/lib.rs:304-320 | of any candidates whose ranges do not end before they start, a choice is disjoint, ordered and gives every loser a preceding winner that covers its start, if and only if it is the greedy selection |
| `CorrectionChoice.LosersDisplaced` | crates/lexicon/src/lib.rs:304-320 | every candidate that is left out starts inside a selected one; when both start at one place the selected one has the higher priority, at equal priority the later end, at an equal end the replacement that is spelled first, and then the smaller id |
| `CorrectionLaws.ContributionsAreRanges` | crates/lexicon/src/lib.rs:399-424 | whatever the rules, empty variants included, no candidate range ends before it starts |
| `CorrectionChoice.AppliedChooses` | crates/lexicon/src/lib.rs:282-345 | whatever a rule proposes for a text is either recorded as a correction or displaced, in that sense, by a recorded proposal of some rule |
| `Corrections.RewriteSelected` | crates/lexicon/src/lib.rs:322-344 | the byte-cursor loop produces the rewritten text together with the corrections by character offsets, or the overflow error |
| `Corrections.ApplyCorrections` | crates/lexicon/src/lib.rs:282-345 | the whole operation computes the specification that the laws on candidates, choice and text are about, on every text, rule list and boundary set, errors included |
| `CorrectionChoice.AppliedSplices` | crates/lexicon/src/lib.rs:322-344 | the text of a successful pass has every recorded replacement in place of its range, moved by what the earlier ones add or remove, every character between the ranges, and nothing more |
| `CorrectionLaws.RuleOrderIrrelevant` | crates/lexicon/src/lib.rs:282-320 | every permutation of the rules gives the same outcome, ids included when they are handed out by position; a foreign variant is refused in every order |
| `Corrections.RenderCorrections` | crates/lexicon/src/lib.rs:348-375 | the character-offset loop equals the rendering specification, error cases included |
| `CorrectionChoice.RenderSplices` | crates/lexicon/src/lib.rs:348-375 | rendering that succeeds replaces exactly the ranges of the corrections in that way and keeps everything else |
| `CorrectionChoice.RenderSucceedsExactly` | crates/lexicon/src/lib.rs:348-375 | rendering succeeds if and only if the corrections, in order of their ranges and ids, are apart, lie inside the text and on their originals |
| `CorrectionChoice.SplicedOnce` | crates/lexicon/src/lib.rs:348-375 | there is only one text with the replacements in place and everything else kept |
| `RenderLaws.RenderRebuildsApplied` | crates/lexicon/src/lib.rs:282-375 | for one run of the pass with unrepeated ids, whatever the rules: when empty candidates at one place have replacements that commute, rendering gives the final text |
| `RenderLaws.RenderRebuildsExactly` | crates/lexicon/src/lib.rs:282-375 | whatever the rules, rendering the recorded corrections gives exactly the final text for every source of unrepeated ids, if and only if selected empty candidates at one place have replacements that commute |
| `RenderLaws.NoEmptyNoTwins` | crates/lexicon/src/lib.rs:399-424 | rules with non-empty variant texts and keys never select two empty candidates at one place, so that the condition holds |
| `RenderLaws.EmptyVariantsDisagree` | crates/lexicon/src/lib.rs:282-375 | with two empty variants and the replacements `x` and `y`, on every text with a word and within 32-bit positions, some unrepeated ids make the rendering of a successful pass differ from its final text |
| `LexiconRules.LexiconSnapshot` | apps/desktop/src-tauri/src/lib.rs:2845-2872 | the loop over the stored entries yields the prompt terms and the rules of the applicable entries with their variants in query order |
| `LexiconRules.RulesExact` | apps/desktop/src-tauri/src/lib.rs:2845-2872 | the rules are exactly the pairs of a stored entry of the global scope or the active profile and a stored variant of that entry |
| `LexiconRules.RulesUsable` | apps/desktop/src-tauri/src/lib.rs:2845-2872 | every rule taken from a sound, validated lexicon has a non-empty variant text and key of its own entry |
| `LexiconRules.StoredLexiconCorrects` | apps/desktop/src-tauri/src/lib.rs:1475-1494 | with the rules of a stored lexicon the pass fails only for texts beyond 32-bit positions; otherwise rendering gives back its final text and the transcript can be saved |
| `LexiconRules.VariantFindsItself` | crates/lexicon/src/lib.rs:140-156 | a validated variant is found as a whole in its own text if and only if it is case-sensitive or composing its folded text changes nothing |
| `LexiconRules.ComposedKeyIsNotFound` | crates/lexicon/src/lib.rs:548-560 | a concrete variant, the letter j with caron, that ignores case, is accepted and is not found in its own text |
| `TranscriptStore.TranscriptRepository.SaveTranscript` | crates/storage/src/lib.rs:821-861 | saves exactly the transcripts whose final text is the rendering of their active corrections, and leaves the store untouched on failure |
| `TranscriptStore.TranscriptRepository.RevertCorrection` | crates/storage/src/lib.rs:926-972 | marks one active correction, stores and returns the new rendering, and leaves the store untouched on failure |
| `TranscriptStore.RunsStaySound` | crates/storage/src/lib.rs:821-972 | after any sequence of saves and reverts every transcript's final text is the rendering of its active corrections and its JSON copy lists the same rows as the table |
| `TranscriptStore.RevertExact` | crates/storage/src/lib.rs:926-972 | a revert succeeds if and only if the correction is active, and leaves exactly the other corrections active |
| `TranscriptStore.RevertTouchesOneRow` | crates/storage/src/lib.rs:926-972 | a revert dates exactly the one active row it was asked for with the given time and leaves every other row and transcript as they were |
| `TranscriptStore.RevertManyRenders` | crates/storage/src/lib.rs:926-972 | reverting any set of active corrections never fails to render and shows the rendering of what remains |
| `TranscriptStore.RevertOrderIrrelevant` | crates/storage/src/lib.rs:926-972 | two orders of reverting the same corrections end in the same text |
| `TranscriptStore.RevertAllRestoresRaw` | crates/storage/src/lib.rs:926-972 | reverting every active correction brings back the raw text |
| `TranscriptFlow.AppliedSaves` | apps/desktop/src-tauri/src/lib.rs:1485-1494 | what the correction pass produces can always be saved, and is stored as produced |
| `TranscriptFlow.CorrectSaveRevertAll` | crates/storage/src/lib.rs:821-972 | correcting, saving and reverting every correction shows the raw text again |
| `Capture.RecordingCoordinator.Reserve` | crates/application/src/lib.rs:81-92 | takes the microphone slot only when it is idle, and otherwise names the job that holds it |
| `Capture.RecordingCoordinator.Commit` | crates/application/src/lib.rs:94-111 | turns a job's own preparation into a recording; an idle coordinator means it was cancelled |
| `Capture.RecordingCoordinator.Begin` | crates/application/src/lib.rs:113-128 | turns a recording into a finalization exactly once |
| `Capture.RecordingCoordinator.Release` | crates/application/src/lib.rs:130-143 | frees the slot for the finalizing job only |
| `Capture.RecordingCoordinator.Abandon` | crates/application/src/lib.rs:145-159 | frees the slot for the preparing job, tolerates an idle slot, refuses any other job |
| `Capture.RecordingCoordinator.Cancel` | crates/application/src/lib.rs:161-175 | frees a preparation or recording and leaves a finalization to its owner |
| `Capture.CaptureState.CommitActiveRecording` | apps/desktop/src-tauri/src/lib.rs:945-973 | publishes a handle under both locks, gives it back when the job was cancelled, refuses an occupied slot |
| `Capture.CaptureState.TakeActiveForFinalization` | apps/desktop/src-tauri/src/lib.rs:975-1005 | takes the handle and the finalization together, and undoes the latter when the handle is missing or foreign |
| `Capture.CaptureState.TakeCancelled` | apps/desktop/src-tauri/src/lib.rs:1579-1600 | the second step of a cancel takes whatever handle is in the slot |
| `Capture.CaptureIsSafe` | apps/desktop/src-tauri/src/lib.rs:945-1017 | over every interleaving the slot holds a job's handle exactly when the coordinator records it or one cancel of it is pending; the missing-handle and foreign-handle branches are never taken; a finalizing job's release always succeeds; every handle has exactly one owner |
| `Capture.OccupiedExactlyDuringCancel` | apps/desktop/src-tauri/src/lib.rs:945-973 | a prepared job meets the occupied-slot error exactly while another job's cancel is between its two steps |
| `Capture.OccupiedCanBeMet` | apps/desktop/src-tauri/src/lib.rs:945-973 | a concrete run in which a second recording's commit meets the occupied slot while the first one's cancel is half done |
| `Capture.StopExact` | apps/desktop/src-tauri/src/lib.rs:975-1005 | over every run a stop succeeds exactly while a job records and then gets that job's handle; otherwise it changes nothing |
| `Capture.CancelStops` | apps/desktop/src-tauri/src/lib.rs:1565-1600 | a cancel that meets a preparing or recording job leaves the microphone idle at once, and in no continuation does that job prepare, record or finalize again; a handle it still opens is never published and goes back to it when the microphone is free |
| `Capture.CancelReports` | crates/application/src/lib.rs:161-175 | over every run the report of a cancel names what it did, and a cancelled recording's handle is there to be taken |
| `Capture.CancelledStartGetsHandleBack` | apps/desktop/src-tauri/src/lib.rs:945-973 | a concrete run in which a start cancelled while it opens the device gets its handle back from the commit |
| `Capture.TakenOnce` | apps/desktop/src-tauri/src/lib.rs:975-1005 | over every run a handle only moves forward, so once a stop or cancel has taken it nobody takes it again |
| `Processing.DesktopState.TryReserveProcessing` | apps/desktop/src-tauri/src/lib.rs:3194-3208 | reserves the slot only when it is free |
| `Processing.DesktopState.EnqueueJob` | apps/desktop/src-tauri/src/lib.rs:3215-3230 | admits one queued job and refuses the next |
| `Processing.DesktopState.ClearQueuedJob` | apps/desktop/src-tauri/src/lib.rs:3238-3260 | clears the queue entry for its own job only |
| `Processing.DesktopState.CancelQueuedJob` | apps/desktop/src-tauri/src/lib.rs:3262-3273 | signals the queued job and leaves it queued |
| `Processing.DesktopState.ClearProcessing` | apps/desktop/src-tauri/src/lib.rs:3275-3297 | clears the slot for its owner only and tells a missing from a foreign owner |
| `Processing.SlotIsOwned` | apps/desktop/src-tauri/src/lib.rs:3172-3315 | over every run with any number of jobs and late releases, reservations minus clears equals the slot's occupancy, and a clear changes the slot if and only if its job holds it |
| `Processing.QueueHoldsOne` | apps/desktop/src-tauri/src/lib.rs:3172-3260 | over every run the queue names a job exactly while that job believes to be queued, and no job finds its own queue entry missing |
| `Processing.NobodyStranded` | apps/desktop/src-tauri/src/lib.rs:3184-3236 | over every run, a state in which the slot is free and a job relies on a notification that is neither stored, owed nor in another job's hands goes back to a cancelled job giving up with the only notification, and has lasted ever since |
| `Processing.StrandsExactly` | apps/desktop/src-tauri/src/lib.rs:3180-3236 | in every reachable world in which nobody is stranded, a step strands a job if and only if it takes a cancelled, just notified job out of its loop while the slot is free, some job relies on a notification, and none is stored, owed or in another job's hands |
| `Processing.NobodyStrandedWithoutCancel` | apps/desktop/src-tauri/src/lib.rs:3184-3236 | in runs that cancel no queued job, a registered waiter of a free slot has a notification owed or a job about to look again, never just a stored permit |
| `Processing.CancelCanStrand` | apps/desktop/src-tauri/src/lib.rs:3181-3190 | a concrete run in which a cancelled waiter consumes the only notification and another job waits, stranded, for a free slot |
| `ModelInstall.ModelStore.ResumeOffset` | crates/model-manager/src/lib.rs:682-717 | succeeds without a disturbance exactly when no torn metadata lies beside a partial and the partial is not too long; the offset is the length of a partial with metadata of this entry, otherwise zero; metadata of another entry discards the partial; torn metadata beside a partial is an error in every run and both files stay as they are |
| `ModelInstall.ModelStore.WriteResumeState` | crates/model-manager/src/lib.rs:719-732 | a failed write leaves the old or a torn metadata file, never a wrong one |
| `ModelInstall.ModelStore.FindLegacyStaging` | crates/model-manager/src/lib.rs:536-556 | finds the one directory of the old layout whose name has the model's prefix and the staging suffix and that holds a model file; reports an error exactly when there are several |
| `ModelInstall.ModelStore.RecoverLegacyStagingPartial` | crates/model-manager/src/lib.rs:525-559 | beside metadata and without a partial, moves back the one staged file found; several are an error; otherwise nothing moves |
| `ModelInstall.ModelStore.RestorePartial` | crates/model-manager/src/lib.rs:643-650 | puts the staged bytes back and removes the staging directory, losing nothing when it is interrupted |
| `ModelInstall.ModelStore.PlaceStaged` | crates/model-manager/src/lib.rs:627-640 | the staged directory becomes the destination by one rename; when that fails, or a directory is already there, the file goes back and the staging directory is gone, unless a second operation fails |
| `ModelInstall.ModelStore.Activate` | crates/model-manager/src/lib.rs:602-641 | whatever operation fails or is the last before a crash, the destination is as before, a rival's, or holds exactly the verified file, and the bytes survive; a directory that is already there is left alone; when one operation fails, no staging directory is left, and up to the last rename partial and metadata are as they were, afterwards the file is installed |
| `ModelInstall.ModelStore.ReceiveBody` | crates/model-manager/src/lib.rs:397-439 | the chunk loop keeps the counter equal to the partial's length and only ever appends a prefix of the body, through cancels, breaks and torn writes |
| `ModelInstall.ModelStore.Fetch` | crates/model-manager/src/lib.rs:362-439 | a partial reply continues and a full reply starts over; an undisturbed run assembles exactly what was there and what the server sends |
| `ModelInstall.ModelStore.Install` | crates/model-manager/src/lib.rs:336-452 | whatever the server, the destination is as before, or a bare directory, or holds exactly this entry's verified file; a run in which nothing fails succeeds if and only if that file is there, or there is no model directory, it is not the download directory, the partial (or the one staged file of the old layout) is resumable and what is assembled from it and the server is the promised content; torn metadata, a complete partial with the wrong content and a directory without the file each stop every run that does not find the file installed, and stay as they are; one failing operation leaves no staging directory, and once the content is complete it leaves either the complete partial or the installed file |
| `ModelInstall.ModelStore.InstallRepeatedly` | crates/model-manager/src/lib.rs:336-452 | over any sequence of installs, each for its own manifest entry of the model and stopped at any file operation: whatever the servers, the destination is as before, bare, or holds exactly one entry's verified file; honest servers stay trusted, and then that file has the served content; the first install that runs to the end leaves its own entry installed |
| `ModelInstall.InstallOne` | crates/model-manager/src/lib.rs:336-452 | for one entry and honest servers, the first install that runs to the end leaves exactly the served content |
| `ModelInstall.TornMetadataBlocks` | crates/model-manager/src/lib.rs:336-452 | a concrete run: two crashed installs leave torn metadata beside a partial, after which any number of undisturbed installs all fail, whatever the servers |
| `ModelInstall.WrongContentBlocks` | crates/model-manager/src/lib.rs:336-452 | a concrete run: after one complete download with the wrong content any number of undisturbed installs all fail, whatever the servers |
| `ModelInstall.DownloadDirectoryBlocks` | crates/model-manager/src/lib.rs:336-452 | a concrete run: when the model's directory is the download directory, every undisturbed install from the first one on fails |
| `ModelInstall.RenamedFileBlocks` | crates/model-manager/src/lib.rs:336-452 | a concrete run: after an install, every undisturbed install of an entry with the same id and another file name fails |
| `ModelInstall.FailedRenameRecovers` | crates/model-manager/src/lib.rs:336-452 | a concrete run: the last rename fails once after an honest download, the partial is back, and the next undisturbed install succeeds whatever the server sends |
| `ModelPath.ModelDirectory` | crates/model-manager/src/lib.rs:494-510 | accepts exactly the ids all of whose segments are safe |
| `ModelPath.DirectoryIsOwn` | crates/model-manager/src/lib.rs:494-510 | an accepted id names a directory strictly below the root, and different ids name different directories |
| `ModelPath.DirectoriesNest` | crates/model-manager/src/lib.rs:494-510 | one accepted id's directory lies inside another's if and only if the other id continues it after a slash |
| `ModelPath.DownloadsExact` | crates/model-manager/src/lib.rs:482-510 | the id `.downloads` is accepted, and no other accepted id names the directory in which downloads are kept |
| `Wav.ValidatePcm` | apps/worker/src/lib.rs:431-447 | accepts exactly non-empty whole finite samples, with the duration or the right error |
| `Wav.WalkChunks` | apps/worker/src/lib.rs:453-492 | on every byte string the walk ends, stays in range, and finds the last format and the first data chunk of the padded chunk sequence, or refuses a truncated chunk or short format |
| `Wav.ValidateWav` | apps/worker/src/lib.rs:449-520 | accepts exactly the files that meet the format, with the duration of their samples |
| `WavFiles.WalkPrinted` | apps/worker/src/lib.rs:453-492 | whatever chunks are written after a 12-byte header, with a pad byte after odd ones, the walk finds exactly their ids and payloads |
| `WavFiles.PrintedVerdict` | apps/worker/src/lib.rs:449-520 | the verdict on a written file and its sample count follow from the last format payload and the first data payload alone |
| `WavFiles.WrittenFormats` | apps/worker/src/lib.rs:493-512 | a written format is accepted exactly for one channel at 16 kHz with 16-bit integers or finite 32-bit floats |
| `WavFiles.ForeignChunksIgnored` | apps/worker/src/lib.rs:449-520 | a foreign chunk of any size before, between or after format and data changes neither verdict nor duration |
| `WavFiles.DurationExact` | apps/worker/src/lib.rs:513-520 | 16 samples are a millisecond, rounded down |
| `Wav.PcmToWav` | apps/worker/src/lib.rs:1007-1033 | wraps exactly the well-sized PCM that fits a 32-bit container |
| `WavFiles.WrappedIsFile` | apps/worker/src/lib.rs:1007-1033 | the wrapper writes a file with just a format chunk and the samples, and its header states the file's size |
| `Wav.WrappedPcmSameVerdict` | apps/worker/src/lib.rs:431-520 | wrapped PCM gets the same verdict and the same duration as the raw PCM |
| `RateLimiter.RequestLimiter.CheckRateLimit` | apps/worker/src/lib.rs:80-108 | one locked check with a clock reading taken before, hence any number, expires the front of the queue and records an accepted request only |
| `RateLimiter.QueueIsRecentAccepted` | apps/worker/src/lib.rs:80-108 | for non-decreasing readings the queue is exactly the accepted times of the last 60 seconds |
| `RateLimiter.AcceptedIffFewRecent` | apps/worker/src/lib.rs:80-108 | a call is accepted if and only if fewer than 20 were accepted in the last 60 seconds |
| `RateLimiter.AtMostTwentyPerWindow` | apps/worker/src/lib.rs:80-108 | when readings arrive in order, every half-open 60-second interval holds at most 20 accepted requests |
| `RateLimiter.LateExact` | apps/worker/src/lib.rs:80-82 | readings are at most `d` below earlier ones if and only if they can arise from callers that wait at most `d` between reading the clock and entering the lock |
| `RateLimiter.LatenessExact` | apps/worker/src/lib.rs:80-108 | in every run with readings late by at most `d` every interval of a length holds at most 20 accepted requests, if and only if the length is zero or at most 60 seconds less `d` |
| `StartGate.ProcessSlot.Active` | apps/worker/src/lib.rs:732-749 | reports a running child, forgets an exited one, and reports a child that cannot be inspected as unavailable without touching the slot |
| `StartGate.ProcessSlot.StopAt` | apps/worker/src/lib.rs:751-764 | takes the child for stopping only when it is still the one at the address |
| `StartGate.ProcessSlot.Take` | apps/worker/src/lib.rs:819-824 | a restart empties the slot and gets whatever child was in it |
| `StartGate.FilledOnlyByGateHolder` | apps/worker/src/lib.rs:701-730 | over every interleaving the slot is filled only by the caller that holds the start gate, and only when empty |
| `StartGate.EveryChildOwnedOnce` | apps/worker/src/lib.rs:701-835 | every spawned child is in the slot, in one caller's hands or finished, and in only one of these, also when requests are dropped and children exit |
| `StartGate.OneStarter` | apps/worker/src/lib.rs:701-730 | at most one caller is ever between spawning a child and publishing it, and the slot is empty meanwhile |
| `StartGate.ServedWasReady` | apps/worker/src/lib.rs:701-730 | over every interleaving a caller only gets the address of a child that it has probed last and found ready, or has started and seen ready; an error means that one of its operations failed, and after a failure it gets nothing else |
| `StartGate.BootedIsPublished` | apps/worker/src/lib.rs:726-729 | a child that has become ready is put into the empty slot, alive, and its address is what its starter gets |
| `StartGate.RemovedWithReason` | apps/worker/src/lib.rs:701-764 | a child leaves the slot only because it has exited, or because the caller that takes it has probed it last and found it not ready, or by a restart |
| `StartGate.StoppedWasUnready` | apps/worker/src/lib.rs:751-764 | outside a restart a caller stops a child only after it has probed it last and found it not ready |
| `StartGate.ProbedWasRunning` | apps/worker/src/lib.rs:732-749 | a caller only probes a child that it has found running in the slot |
| `Csv.ReadPrinted` | apps/desktop/src-tauri/src/lib.rs:3826-3832 | reading printed records of two or more fields gives them back, with commas, quotes and line breaks in any field |
| `LexiconCsv.LexiconToCsv` | apps/desktop/src-tauri/src/lib.rs:3781-3824 | the row loop writes the header and one line per variant, or one per entry without variants |
| `LexiconCsvImport.ParseSheet` | crates/storage/src/lib.rs:748-810 | the grouping loop equals its specification, with the line number of the first refused row |
| `LexiconCsvImport.ReadExportedRow` | crates/storage/src/lib.rs:725-742 | every exported row of a normalised entry reads back field by field |
| `LexiconCsvImport.ParsedKeysDistinct` | crates/storage/src/lib.rs:764-781 | whatever the sheet, an import yields one entry per grouping key |
| `LexiconCsvImport.ExportImport` | crates/storage/src/lib.rs:748-810 | for normalised entries export then import gives back exactly the entries, variant order kept, if and only if their grouping keys are pairwise distinct |
| `LexiconCsvImport.ExportImportSorted` | crates/storage/src/lib.rs:809 | the imported entries come in the order of their keys |
| `LexiconCsvImport.KeyExactWithoutBars` | crates/storage/src/lib.rs:764-770 | without bars in the text fields a key identifies term, language, category and scope |
| `LexiconCsvImport.BarCollides` | crates/storage/src/lib.rs:764-770 | two different normalised entries, term `a|b` in language `c` and term `a` in language `b` with category `c|`, share a key |
| `LexiconCsvImport.FullImportDistinct` | crates/storage/src/lib.rs:748-810 | an import that yields as many entries as were exported had no two keys alike |
| `SheetLaws.SheetAcceptedExactly` | crates/storage/src/lib.rs:748-810 | a sheet is accepted if and only if every row is readable with a known scope and a complete or missing variant, and any two rows of one entry agree on priority and enabled |
| `SheetLaws.SheetContents` | crates/storage/src/lib.rs:748-810 | every entry of an accepted sheet has, in order, exactly the variants of the rows of one key, and the priority and enabled value they state |
| `SheetLaws.SheetKeepsRows` | crates/storage/src/lib.rs:748-810 | every row of an accepted sheet is gathered by some entry |
| `LexiconValidation.NewEntryWellFormed` | crates/lexicon/src/lib.rs:79-107 | a validated entry has trimmed, non-empty, bounded text, a category of at most 64 characters, a letters-and-hyphens language of at most 35 bytes and a priority of at most 100 |
| `LexiconValidation.EntryAcceptedExactly` | crates/lexicon/src/lib.rs:79-107 | a draft is accepted if and only if its priority is at most 100, its collapsed term has 1 to 256 characters, its category if any 1 to 64, and its language if any is a tag of letters and hyphens of at most 35 bytes |
| `LexiconValidation.LowerExact` | crates/lexicon/src/lib.rs:541-557 | lower-casing a language changes capital ASCII letters only, each to the small letter at its place in the alphabet |
| `LexiconValidation.DisplayTextTrimmed` | crates/lexicon/src/lib.rs:510-524 | normalised display text is non-empty and trimmed |
| `LexiconValidation.CollapseExact` | crates/lexicon/src/lib.rs:514-519 | whatever whitespace lies around the words of a text, its display form has exactly these words with one blank between them |
| `LexiconValidation.WordsExist` | crates/lexicon/src/lib.rs:514-519 | every text consists of such words and whitespace |
| `LexiconValidation.NewVariantNonEmpty` | crates/lexicon/src/lib.rs:140-156 | a validated variant has a non-empty text and a non-empty key, when composition and folding keep text non-empty |
| `LexiconTransfer.NewEntrySettled` | crates/lexicon/src/lib.rs:79-107 | validating what validation produced changes nothing |
| `LexiconImport.KeepFirstVariants` | crates/storage/src/lib.rs:691-699 | keeps the first variant of every key and counts every other one |
| `LexiconImport.LexiconRepository.Import` | crates/storage/src/lib.rs:657-707 | the import equals its specification and is all or nothing |
| `LexiconImportLaws.IdentityExact` | crates/lexicon/src/lib.rs:109-119 | for validated entries the identity key is equal if and only if scope, language and comparison key are |
| `LexiconImportLaws.SeenKeyExact` | crates/storage/src/lib.rs:694 | the variant key is equal if and only if comparison key and match mode are, bars included |
| `LexiconImportLaws.UniqueCovers` | crates/storage/src/lib.rs:691-699 | de-duplication loses no variant key and invents none |
| `LexiconImportLaws.UniqueFirst` | crates/storage/src/lib.rs:691-699 | every variant that is kept is the first one with its key, in the order of the variants |
| `LexiconImportLaws.ImportExact` | crates/storage/src/lib.rs:657-707 | a successful import keeps both uniqueness constraints and both references, appends exactly the first draft of every new identity, and its report satisfies added + skipped = drafts and added + duplicate variants = variants of the added drafts |
| `LexiconImportLaws.ImportSucceeds` | crates/storage/src/lib.rs:657-707 | with new ids an import succeeds if and only if every draft is valid and the profiles of the entries to be added exist |
| `LexiconImportLaws.ImportAgain` | crates/storage/src/lib.rs:657-707 | repeating an import changes nothing and skips everything |
| `LexiconTransfer.ExportLexicon` | apps/desktop/src-tauri/src/lib.rs:2194-2232 | exports the stored entries in query order, each with its variants in query order |
| `LexiconTransfer.ImportKeepsSettled` | crates/storage/src/lib.rs:657-707 | imports only ever store text that validation leaves alone |
| `LexiconTransfer.ExportSkipsItself` | apps/desktop/src-tauri/src/lib.rs:2172-2232 | importing a lexicon's own export skips every entry and changes nothing, if and only if no two entries share a grouping key |
| `LexiconTransfer.ExportRestores` | apps/desktop/src-tauri/src/lib.rs:2172-2232 | importing a lexicon's export into an empty one with the same profiles restores every entry with its variants and nothing else, if and only if no two entries share a grouping key |
| `LexiconTransfer.NoBarsDistinct` | apps/desktop/src-tauri/src/lib.rs:2172-2232 | without bars in terms and categories, and with scopes told apart, no two entries of a lexicon share a grouping key |
| `LexiconTransfer.BarsLoseAnEntry` | apps/desktop/src-tauri/src/lib.rs:2172-2232 | a lexicon that a valid import builds from two entries with bars and that its own export neither restores nor skips |
| `LikeSearch.EscapeLikeIsEscapeEach` | crates/storage/src/lib.rs:1377-1382 | the three successive replacements equal one escape per character |
| `LikeSearch.LikeEscaped` | crates/storage/src/lib.rs:1377-1382 | escaped text inside a pattern matches exactly itself, up to ASCII case |
| `LikeSearch.PatternIsContains` | crates/storage/src/lib.rs:902-924 | the search pattern matches a text if and only if it contains the query literally, up to ASCII case |
| `Text.SameUpToCase` | crates/storage/src/lib.rs:902-924 | characters are the same to a search exactly when they are equal or one is the ASCII capital of the other |
| `LikeSearch.SearchExact` | crates/storage/src/lib.rs:902-924 | a search is refused exactly for an unusable query, and otherwise returns the first rows, in descending order of the stored time text, that contain the trimmed query; a row is left out only for rows that do not sort after it |
| `LikeSearch.NewestIsLatest` | crates/storage/src/lib.rs:902-924 | of two rows the search order puts the later one first, if and only if their stored times are not misordered |
| `StoredTime.TextOrderExact` | crates/storage/src/lib.rs:1405-1409 | stored time texts sort like the moments they stand for, if and only if they do not fall into one second with the subsecond digits of one continuing those of the other |
| `StoredTime.WholeSecondSortsLast` | crates/storage/src/lib.rs:1405-1409 | the text of a whole second sorts after the text of every later moment of that second |
| `Prompts.SelectPromptTerms` | crates/lexicon/src/lib.rs:235-268 | the loop over sorted candidates equals the selection specification |
| `Prompts.SelectionIgnoresOrder` | crates/lexicon/src/lib.rs:239-250 | any order of the same entries with distinct ids gives the same selection |
| `Prompts.SelectionMaximal` | crates/lexicon/src/lib.rs:252-262 | only enabled entries of the global scope or the active profile are chosen, and none of these that was skipped still fits beside the final choice |
| `Prompts.SelectionSorted` | crates/lexicon/src/lib.rs:243-262 | the chosen terms come by descending priority, at one priority by the spelling of their keys, and then by id |
| `Prompts.WorkerAcceptsSelection` | apps/worker/src/lib.rs:393-412 | the worker's own bounds accept a selection if and only if no chosen term is blank |
| `Prompts.ValidatedPromptsPass` | apps/worker/src/lib.rs:393-412 | validated entries never produce a prompt the worker refuses |
| `Voice.LiveVad.Push` | crates/audio/src/lib.rs:377-405 | one sample moves the streaming detector as specified; a rejected frame is remembered |
| `Voice.CaptureState.AppendInput` | crates/audio/src/lib.rs:322-340 | one callback's frames are mixed, measured, stored and passed to the detector as specified |
| `Voice.AnalyzeSpeech` | crates/audio/src/lib.rs:522-571 | the batch loop equals its specification |
| `VoiceVerdicts.AnalysisExact` | crates/audio/src/lib.rs:522-571 | in terms of the detector's verdicts: the analysis fails exactly on a rejected frame; the speech is 30 ms for every frame with speech, the trailing silence 30 ms for every frame after the last of them, and the end is detected exactly when such a silence was once long enough |
| `VoiceVerdicts.PeakExact` | crates/audio/src/lib.rs:322-340 | the peak is the largest magnitude among the stored samples, capped at 1 |
| `VoiceVerdicts.MeanExact` | crates/audio/src/lib.rs:331-333 | a mono sample times the number of channels is the total of the channels |
| `VoiceVerdicts.QuantiseExact` | crates/audio/src/lib.rs:378-379 | a sample is rounded to the nearest step of the 16-bit range and clamped outside it |
| `VoiceLaws.PushFrame` | crates/audio/src/lib.rs:377-405 | pushing one frame's samples one by one is one detector call on the frame |
| `VoiceLaws.LiveAgreesWithBatch` | crates/audio/src/lib.rs:377-571 | for every 16 kHz stream the live detector has failed if and only if the batch analysis fails, and otherwise both report the same trailing silence and end detection |
| `VoiceLaws.CaptureExact` | crates/audio/src/lib.rs:322-340 | the buffer holds the first frames up to its capacity, the limit is reported exactly when more arrived, and the live detector has heard exactly what is stored |
| `VoiceLaws.AppendSplits` | crates/audio/src/lib.rs:322-340 | whole-frame callbacks may split the stream anywhere |
| `VoiceLaws.BrokenFrameIsLost` | crates/audio/src/lib.rs:322-340 | for any number of channels and any capture not finished by then: a callback that ends inside a frame loses that part, whatever completes the frame |
| `VoiceLaws.SplitExact` | crates/audio/src/lib.rs:322-340 | splitting the stream makes no difference to any continuation, if and only if the split falls between frames or the capture is finished by then |
| `VoiceLaws.FinishNeverSurprises` | crates/audio/src/lib.rs:239-267 | a 16 kHz recording that passes its checks is delivered whole with the end detection shown live; the batch analysis never fails it afterwards |

## Left out

- VoiceLaws.LiveAgreesWithBatch: says nothing for other rates than 16 kHz, where the batch analysis sees resampled audio and the live detector does not.
- ModelInstall.ModelStore.Install: says nothing about a model `.downloads` whose file name is that of a file in the download directory.
- ModelPath.DirectoryIsOwn: paths are compared exactly, not as a case-insensitive file system would.
- ModelPath.DownloadsExact: the same holds for other spellings of `.downloads`.
- ModelInstall.ModelStore.PlaceStaged: a directory is never renamed onto an existing one, as on Windows; systems that replace an empty directory are not modelled.
- StoredTime.TextOrderExact: covers times in UTC with years up to 9999, the only ones the application writes.
- Processing.SlotIsOwned: does not say that every reservation is released; two early returns after the reservation leave the slot taken (apps/desktop/src-tauri/src/lib.rs:1427 and 1435).
- HTTP, Tauri commands, multipart handling, the user interface and event emission.
- Windows calls, clipboard, hotkeys, the credential store, audio devices, resampling and the detector's internals.
- Signatures, SHA-256, JSON, normalisation, case-fold and word-segmentation tables: parameters here.
- Matching is on scalar values, not on bytes; the two agree because UTF-8 is self-synchronising.
- Samples are real numbers, so rounding of single-precision sums, infinities and NaN do not appear in `Voice`; `Wav` does look at the bits of a sample.
- Waiting is modelled by positions between critical sections; time, fairness and lock poisoning are not.
- A trusted store has no directories of the old layout with a staged file, since only the affected alpha build ever made them; how their prefix is derived from a model id is a parameter (`legacyPrefix`).
- Download progress, the overflow check of the byte counter, and 64-bit address-space limits.
- The CSV reader's byte-order-mark handling and error messages; SQLite's treatment of embedded NUL characters and its limit on pattern length.
- The 13-state application graph, the language catalogue, settings, provider profiles, migrations and error-code mapping: finite or easy.
- The local provider's start gate (crates/providers), a simpler instance of `StartGate`.
- Deleting entries and profiles, editing entries, injection outcomes and warnings: single statements on one row.
