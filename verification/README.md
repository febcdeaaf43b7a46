# Codex Usage Watch: a verified model

Codex Usage Watch reads rate-limit snapshots out of Codex transcripts, which
arrive late, twice, out of order and with jittery reset times, and turns them
into local five-hour usage windows. This project models the parts of it whose
correctness is hardest to see, and proves what they promise.

| part | modules |
|---|---|
| Values and helpers | `Options`, `Sorting`, `UsageModel` |
| Reset classification | `ResetClassifier` |
| The incremental meter | `Milestones`, `Accounting` |
| Window replay | `WindowReplay`, `ReplayInvariants`, `WindowMeaning`, `Backfill`, `MeterAgreement` |
| The store around replay | `StateStore`, `SnapshotTable`, `TableGrowth`, `Batching`, `PinnedReplay`, `TableInvariants`, `WindowStarts`, `ReplayFixpoint`, `ManualReset`, `ReplayLimits` |
| Transcript ingestion | `LineReader`, `TranscriptScan`, `TranscriptLines`, `Resumability`, `Transcripts`, `StoredSnapshots`, `ConcurrentIngest`, `SoloWriter`, `LateFragments`, `CatchUp` |
| Calibration | `WeightedMedian`, `CalibrationGroups`, `CalibrationReport`, `CalibrationFigures`, `CalibrationState`, `VanishingEvidence` |
| Hooks | `HookCommand`, `ShellWords`, `HookLists`, `LegacyCommands`, `HooksFile`, `HookRuns` |

`dafny verify dfyconfig.toml` checks everything.

Code that the source writes as loops or as objects whose fields change is
written that way here (`AccountingEngine`, `StateStore`, `TranscriptStore`,
`BufferedReader`, `AnalysisStore`, `HooksFile`, `RebuildWindows`,
`BackfillKnownFiveHourEpochs`, `NormalizeResetJitter` and the smaller loops);
each such method is tied to a specification function, and the laws are proved
about those functions over all inputs, runs or interleavings. Besides the laws
that relate several steps, each result the program stores or shows is also
described from its inputs alone: what a window says of its readings
(`WindowMeaning`), a classification of the two readings (`KindsExactly`), a report
of its samples (`CalibrationFigures`), a pass of the lines it reads
(`TranscriptLines`), and an installed command of the event it is run for
(`HookRuns`). Timestamps are
integers (nanoseconds), percentages are reals between 0 and 100, observation ids
are totally ordered pairs, JSON parsing is an arbitrary function on lines.

## Where the code stops short of its law

Each of these is a lemma with the exact condition or a concrete run.

* A transcript's length is sampled when it is opened, and its lines are read
  later. A fragment that arrives in between and is reached before its line is
  complete is consumed as malformed, and the record it grows into is never
  stored (`FragmentAfterSampleIsLost`; of a given fragment, exactly when the file
  has grown since the sample and the batch can be committed:
  `LateFragmentIsLostExactly`). A run of any number of writers is safe all along
  exactly when every line in it is read safely (`SafeThroughoutExactly`), that is,
  when no writer reaches a fragment, or it is left alone because it is not yet a
  record and the file has not grown (`ReadIsSafeExactly`). Where fragments grow
  into records and can be committed past, that is also exactly when no extension
  of the run can lose a record (`NothingCanBeLostExactly`).
* `windows.started_at` is a primary key, so an ingest fails exactly when its
  replay opens a window with the start of an earlier one
  (`IngestSucceedsExactly`); for weekly-only data, exactly when a reading expires
  a window at the instant at which that window starts
  (`WeeklyIngestSucceedsExactly`). Inputs that reach this include the following.
  A manual reset dated before the start of a window that began with two readings
  of one instant makes every later refresh fail (`ResetBeforeStartWedgesStore`).
  Paired readings whose five-hour reset is R, then missing, then R again fail on
  an empty store (`LostResetFailsIngest`). So do readings of an epoch, one at the
  very instant it ends, followed by one of the next epoch (`EpochEndFailsIngest`).
* The replay runs in the transaction that stores a transcript's records and
  cursor, so a commit takes place exactly when the replay repeats no start
  (`CommitSucceedsExactly`), and an undisturbed ingest catches up exactly then, or
  when nothing was missing (`OneQuietIngestCatchesUpExactly`). A transcript that
  begins with the resets R, missing, R is never taken into an empty store,
  whatever later readings it grows by (`NeverCatchesUp`, `LostTranscript`).
* A refresh of unchanged data, over any store and under any later profiles,
  leaves the store as it is exactly when every reading that reached the expiry
  test of a window without expiring it, ignored regressions included, precedes
  the end the table gives that window (`RefreshIsStableExactly`); three paired
  readings that break it are in `LateSplitIsNotStable`. A manual reset survives
  the next refresh under the same condition on the ends it leaves
  (`ResetSurvivesExactly`), and its window then becomes current again exactly when
  it was observed after the reset (`ResetStaysArchivedExactly`). In any case the
  window takes in no reading at or after its new end except as its first
  (`ResetDividesWindow`).
* For data of any kind, an ingest ends as one replay of everything would exactly
  when the ends and calibrations pinned by the previous table fit that replay
  (`IngestAsOneReplayExactly`). For weekly-only data, batching, order and
  repetition are invisible exactly when every window of one replay starts at an
  instant all of whose readings select its calibration
  (`BatchingIsIrrelevantExactly`); disagreement at the first instant shows
  (`InstantProfilesShow`), inside a window it does not (`InnerProfilesAreHidden`).
* Replay and the incremental engine agree after every snapshot of a run exactly
  when no threshold is zero and no snapshot is of an old weekly epoch at or after
  the current window's end (`AgreeThroughoutExactly`).
* Windows of paired data are in order, and then disjoint, exactly when every
  server split fits between its neighbours (`IngestOrderedExactly`); they can be
  disjoint out of order (`DisjointOutOfOrder`).
* The points of all windows equal the confirmed growth after every prefix of a
  run exactly when no continuing reading hides usage
  (`ConservedThroughoutExactly`). It hides some when neither it nor its
  predecessor has a reset time and usage falls to something above zero
  (`UntimedFallBreaksConservation`), and also in the mixed case, when only one of
  the two has a reset time, the earlier usage is above zero and usage does not
  fall.
* A transcript can be resumed, whatever is appended to it, exactly when its
  unfinished last line is empty, or short enough and not yet a record
  (`ResumableExactly`).
* The continuity marker determines the consumed prefix exactly up to 256 bytes
  (`MarkerDeterminesPrefixExactly`).
* Drift confirmations follow the stored sample count down as well as up. Every
  raise that could come next is more evidence than there ever was exactly when no
  earlier analysis both exceeds the stored count and had a candidate
  (`NextRaiseIsNewExactly`). Otherwise evidence can confirm itself: two more
  readings of one window, a lower and then a higher one, make a growing table
  yield n, n - 1 and n windows and a count of two (`GrowingTableConfirmsItself`).
* Installing hooks twice equals installing them once exactly when the executable
  carries one of the four owned names (`InstallTwiceExactly`), and so does
  uninstalling undo installing (`UninstallUndoesInstallExactly`). Removal also
  drops groups whose `hooks` array was already empty (`RemovalKeepsSurvivors`).
* A single-quoted command line is recognised after trimming any Unicode white
  space around the quotes, but the shell runs the executable it is read as exactly
  when everything trimmed is a space or a tab (`RecognisedIsWhatRunsExactly`); a
  no-break space before the quotes breaks it (`NoBreakSpaceIsNotRun`).

## Model

| member | source | states |
|---|---|---|
| ResetClassifier.OldEpochExactly | src/reset.rs:71-94 | a reading is of an old epoch iff one of its full-length windows has a reset more than 60 s before its predecessor's; two readings are old seen from each other only if one window moved back and the other forward |
| ResetClassifier.SplitExactly | src/persistence/window_replay.rs:142-163 | a server split happens iff both readings show a five-hour window whose resets are more than 60 s apart, or only one is known, and neither window's reset moved back; the tested classifications leave no other case out |
| ResetClassifier.BoundaryBetween | src/reset.rs:239-245 | every reported boundary lies between the two observations it separates |
| ResetClassifier.KindsExactly | src/reset.rs:71-190 | each classification from the fields of the two readings alone: what is old, unusable, a natural five-hour or weekly reset, a full reset, ambiguous, and nothing |
| ResetClassifier.BoundaryExactly | src/reset.rs:96-190 | a boundary is reported iff a usable window moved on: the start of the new five-hour epoch if that one did, else of the weekly one, moved to the nearest instant between the two observations |
| ResetClassifier.JitterIsNotAReset | src/reset.rs:55-63 | comparable windows within 60 s of each other never count as a reset and never split |
| Milestones.SuperMilestoneIsGreatest | src/calculate.rs:217-240 | the stepped value never exceeds the estimate, is a milestone 100 + k * step (k >= 1) whenever it is above 100, and no reached milestone of that kind exceeds it |
| Milestones.NewestMilestoneIsNewest | src/persistence/window_replay.rs:681-697 | replay's choice is the greatest reached milestone of either kind |
| Milestones.NewestUnemittedIsNewest | src/calculate.rs:217-240 | the engine's choice is the greatest reached milestone above the last emitted one |
| Milestones.MilestoneStep | src/calculate.rs:139-147 | one step keeps the remembered milestone equal to the stateless one, and what is emitted is larger than before |
| Milestones.EmptyWindowMilestone | src/persistence/window_replay.rs:681-697 | an empty window has no milestone iff no threshold is zero |
| Accounting.AccountingEngine.constructor | src/calculate.rs:55-62 | a new engine has no window and has seen nothing |
| Accounting.AccountingEngine.Apply | src/calculate.rs:74-154 | one snapshot moves the engine to its specified next state; reading, acceptance, archived window and crossed milestone follow from old and new state |
| Accounting.AccountingEngine.ApplyOrdered | src/calculate.rs:156-172 | applies the snapshots in time and id order, with one outcome each |
| Accounting.ReadingMeans | src/calculate.rs:185-215 | a reading over any run: the estimate is the share of the calibration the points make up, it is of a snapshot of the run within the window, expired iff the window is over, and before that stale iff the snapshot is older than allowed, else fresh |
| Accounting.TraceFollowsEngine | src/calculate.rs:74-154 | the annotated run used below is the engine's run |
| Accounting.ClampIsIdle | src/calculate.rs:120-137 | accepted deltas are never negative, so clamping to zero changes nothing |
| Accounting.EveryWindowIsBalanced | src/calculate.rs:120-137 | in every window of every run, points plus the first reading equal the latest reading plus all readings just before weekly resets |
| Accounting.PointsBound | src/calculate.rs:120-137 | with k weekly resets a window holds between 0 and 100 * (k + 1) points |
| Accounting.EveryMilestoneAgrees | src/calculate.rs:139-147 | over every run with positive thresholds the remembered milestone is the one replay computes statelessly |
| Accounting.EmittedMilestonesIncrease | src/calculate.rs:139-151 | over every run the milestones emitted within a window strictly increase, and the last of them is remembered |
| Accounting.AcceptedExactly | src/calculate.rs:74-137 | over every run a snapshot is accepted iff its id is new and it is the first, or the window is over, or it is later than the latest one and its usage does not fall back; otherwise the window is left alone |
| WindowReplay.BackfillKnownFiveHourEpochs | src/persistence/window_replay.rs:454-480 | the reverse loop in place computes the specified backfill |
| WindowReplay.RebuildWindows | src/persistence/window_replay.rs:112-322 | the replay loop over the array computes the specified windows |
| WindowMeaning.WindowsSummariseReadings | src/persistence/window_replay.rs:165-260 | every window of every replay says of the readings accepted into it: start, calibration, kind and boundary by the first one, latest values by the last, server percentage by the newest that has one, points by the movement within the window and across the split before it, the newest milestone of those points, and the end it was opened with, which all later readings precede, unless a split with a boundary follows |
| WindowMeaning.EveryMilestoneIsNewest | src/persistence/window_replay.rs:549-549 | over any data no window forgets its milestone, also one that opens with usage from across a split |
| WindowMeaning.EventsExactly | src/persistence/window_replay.rs:130-163 | a reset event is noted iff something moved since the last accepted reading, whether or not the reading is then used |
| ReplayInvariants.RunTracks | src/persistence/window_replay.rs:584-596 | the open window's latest reading is always the last accepted observation |
| ReplayInvariants.RunIsSane | src/persistence/window_replay.rs:165-208 | every window starts no later than it ends, over every run and every sane previous table |
| ReplayInvariants.PointsStayPositive | src/persistence/window_replay.rs:210-256 | points are never negative |
| ReplayInvariants.GrowIsGrowthExactly | src/calculate.rs:17-39 | the delta booked within a window is confirmed growth iff the reading hides nothing |
| ReplayInvariants.ConservedThroughoutExactly | src/persistence/window_replay.rs:169-256 | the points of all windows equal the confirmed growth after every prefix iff no continuing reading hides anything |
| ReplayInvariants.UsageIsConserved | src/persistence/window_replay.rs:169-256 | with weekly reset times, the points of all windows sum to the growth between consecutive accepted readings, except across local expiries |
| ReplayInvariants.UntimedFallBreaksConservation | src/calculate.rs:17-39 | two readings without reset times whose fall is booked as usage |
| ReplayInvariants.SplitApartExactly | src/persistence/window_replay.rs:165-208 | a server split keeps the two windows apart iff the new start fits between its neighbours |
| ReplayInvariants.OrderedExactlyWhenSplitsFit | src/persistence/window_replay.rs:165-208 | the windows of a run are in order iff every split fits |
| ReplayInvariants.InOrderDisjoint | src/persistence/window_replay.rs:165-208 | ordered windows are pairwise disjoint |
| ReplayInvariants.WeeklyOnlyInOrder | src/persistence/window_replay.rs:112-322 | without five-hour data the windows are always disjoint |
| Backfill.BackfillClosedForm | src/persistence/window_replay.rs:454-480 | an item gets a five-hour window iff a later known epoch reaches it, and then exactly that one; nothing else changes |
| Backfill.ReachesInTime | src/persistence/window_replay.rs:454-480 | on time-ordered items only the two ends of the run need to lie in the widened epoch |
| Backfill.FilledRunIsContiguous | src/persistence/window_replay.rs:454-480 | filled items form runs ending at their source |
| Backfill.BackfillIdempotent | src/persistence/window_replay.rs:454-480 | a second pass changes nothing |
| Backfill.BackfillKeepsTheRest | src/persistence/window_replay.rs:454-480 | only missing five-hour windows are touched |
| MeterAgreement.StepAgreesExactly | src/persistence/window_replay.rs:130-141 | from equal windows both meters reach equal windows iff the snapshot is not a late old epoch |
| MeterAgreement.ReplayAgreesWithEngine | src/calculate.rs:74-172 | replay and the engine yield the same windows: start, end, points, latest reading, milestone |
| MeterAgreement.AgreeThroughoutExactly | src/calculate.rs:97-105 | the two agree after every snapshot of a non-empty run iff no threshold is zero and none is a late old epoch |
| StateStore.StateStore.InsertSnapshots | src/persistence/window_replay.rs:17-48 | insert-or-ignore of a batch, with the number of new rows |
| StateStore.StateStore.LatestManualReset | src/persistence/window_replay.rs:262-278 | the newest manual reset on record |
| StateStore.StateStore.InsertRows | src/persistence/window_replay.rs:262-320 | all rebuilt rows or a primary key failure, and which row is current |
| StateStore.StateStore.Rebuild | src/persistence/window_replay.rs:112-322 | replays the snapshots table into new rows |
| StateStore.StateStore.Ingest | src/persistence.rs:451-476 | one ingest as one transaction: the whole new store, or nothing changed |
| StateStore.StateStore.ResetCurrentWindow | src/persistence.rs:417-449 | one manual reset as one transaction: the current window ends at the later of now and its start and is archived, every other row stays, the reset is recorded; without a current window nothing changes |
| SnapshotTable.InsertAllElements | src/persistence/window_replay.rs:17-48 | insertion keeps ids distinct and adds exactly the rows with new ids |
| SnapshotTable.IngestKeepsEarliest | src/persistence.rs:456-465 | an ingest keeps every stored row and, of each new id, the earliest observation of the batch, the first to arrive among equally early ones |
| SnapshotTable.ItemsDependOnRows | src/persistence/window_replay.rs:324-452 | the replay order depends only on which rows the table holds |
| TableGrowth.RunGrows | src/persistence/window_replay.rs:126-260 | later items never change closed windows, and the open one only by growth or one clip |
| TableGrowth.PinnedCalibration | src/persistence/window_replay.rs:501-505 | a window whose start is pinned has the pinned calibration |
| Batching.PreservedIsIrrelevant | src/persistence/window_replay.rs:482-553 | pins that agree with the windows of a weekly-only replay never change it |
| Batching.WindowsAreFresh | src/persistence/window_replay.rs:482-553 | over pins left by earlier batches, every weekly-only window is the fresh window of some reading of its first instant |
| Batching.IngestStaysFresh | src/persistence.rs:451-476 | a batch of weekly-only data always succeeds and leaves such windows |
| Batching.IngestSettles | src/persistence.rs:451-476 | under the condition one more batch leaves the table where one replay of everything would |
| Batching.OneReplayIsEnough | src/persistence/window_replay.rs:112-322 | so does any way of batching, ordering and repeating the same weekly-only observations |
| Batching.BatchingIsIrrelevant | src/persistence.rs:451-476 | any two such ways end with the same windows table |
| Batching.EarlyReadingShows | src/persistence/window_replay.rs:502-505 | a reading at a window's start that selects another calibration shows if it arrives first |
| Batching.BatchingIsIrrelevantExactly | src/persistence.rs:451-476 | batching is invisible iff every window of one replay starts at an instant all of whose readings select its calibration |
| PinnedReplay.PinnedReplayExactly | src/persistence/window_replay.rs:482-553 | a replay over any previous table gives the windows of one without it iff its pins fit |
| PinnedReplay.IngestAsOneReplayExactly | src/persistence.rs:451-476 | an ingest of paired or weekly-only data ends as one replay of everything iff what earlier batches pinned fits that replay |
| PinnedReplay.PairedBatchingAgreesExactly | src/persistence.rs:451-476 | of two stores with the same rows, where the pins of one fit, the other ends with the same windows iff its pins fit |
| TableInvariants.IngestKeepsTable | src/persistence.rs:451-476 | an ingest keeps the table invariant |
| TableInvariants.ResetKeepsTable | src/persistence.rs:417-449 | a manual reset keeps the table invariant and leaves no current window |
| TableInvariants.EveryInterleavingKeepsTable | src/persistence.rs:417-476 | over every interleaving: start <= end, points >= 0, at most one current window and it is the last, observed after every manual reset |
| TableInvariants.IngestOrderedExactly | src/persistence/window_replay.rs:165-208 | after any ingest the windows are in order iff every server split fits |
| TableInvariants.WeeklyWindowsStayDisjoint | src/persistence.rs:417-476 | weekly-only windows stay pairwise disjoint over every interleaving |
| TableInvariants.WeeklyIngestSucceeds | src/persistence/window_replay.rs:262-320 | over a table without a window of no length a weekly-only ingest succeeds |
| WindowStarts.StepStarts | src/persistence/window_replay.rs:165-208 | a step keeps all window starts and adds one iff it opens a window |
| WindowStarts.DistinctStartsExactly | src/persistence/window_replay.rs:165-208 | the starts of a run are distinct iff no opening, split or expiry repeats an earlier one |
| WindowStarts.IngestSucceedsExactly | src/persistence/window_replay.rs:262-320 | an ingest of any data succeeds iff its replay repeats no start |
| WindowStarts.WeeklyStartsExactly | src/persistence/window_replay.rs:165-208 | weekly-only starts are distinct iff no reading expires a window at the instant it starts |
| WindowStarts.WeeklyIngestSucceedsExactly | src/persistence/window_replay.rs:262-320 | a weekly-only ingest succeeds iff that holds of its replay |
| ReplayFixpoint.RetouchedReplayExactly | src/persistence/window_replay.rs:482-505 | replaying over a table the same items gave, whose last end may have been set by hand, reproduces that table iff every reading that reached an expiry test without expiring the window precedes the end the table gives it |
| ReplayFixpoint.SecondReplayExactly | src/persistence/window_replay.rs:171-175 | the same for the table as it was, whatever the first replay had pinned and whatever profiles are used now |
| ReplayFixpoint.RefreshIsStableExactly | src/persistence/window_replay.rs:502-505 | after any ingest over any store, a refresh under any profiles leaves the store as it is iff that condition holds |
| ReplayFixpoint.ResetSurvivesExactly | src/persistence.rs:417-449 | a manual reset survives the next refresh iff it holds of the ends the reset leaves |
| ReplayFixpoint.ResetStaysArchivedExactly | src/persistence/window_replay.rs:276-278 | a surviving window is current again iff it was observed after the reset |
| ManualReset.ResetEndsCurrent | src/persistence.rs:432-441 | the reset puts the end of exactly the current window at the later of now and its start |
| ManualReset.ResetDividesWindow | src/persistence/window_replay.rs:171-208 | whatever is ingested next, the window that was reset takes in no reading at or after the end it was given, except as its first |
| ManualReset.ReadingAfterResetExactly | src/persistence/window_replay.rs:171-208 | after a reset that survives, the next weekly-only reading at or after it opens a window of its own, or is of an old weekly epoch and changes no window, or repeats a start and fails |
| ManualReset.NextReadingOpensWindow | src/persistence.rs:417-476 | with weekly-only data and a reset later than all stored readings, the next reading always succeeds, the window that was reset ends at the reset, and the reading opens a window unless it is of an old weekly epoch |
| ReplayLimits.ResetBeforeStartWedgesStore | src/persistence.rs:417-449 | a run after which every refresh fails |
| ReplayLimits.LateSplitIsNotStable | src/persistence/window_replay.rs:171-175 | three paired readings whose table a refresh changes |
| ReplayLimits.InstantProfilesShow | src/persistence/window_replay.rs:502-505 | two calibrations at the first instant break the condition, and the later reading shows if it arrives first |
| ReplayLimits.InnerProfilesAreHidden | src/persistence/window_replay.rs:502-505 | inside a window the same disagreement keeps the condition |
| ReplayLimits.LostAndFoundFailsReplay | src/persistence/window_replay.rs:143-208 | whatever else is stored, if the first three readings have resets R, missing, R, a replay over an empty table repeats a start |
| ReplayLimits.LostResetFailsIngest | src/persistence/window_replay.rs:143-208 | those three readings fail on an empty store |
| ReplayLimits.EpochEndFailsIngest | src/persistence/window_replay.rs:165-208 | so do readings before and at the end of an epoch and one of the next |
| ReplayLimits.DisjointOutOfOrder | src/persistence/window_replay.rs:555-565 | two disjoint windows whose split does not fit |
| LineReader.BufferedReader.FillBuf | src/ingest.rs:216-249 | the buffered reader may hand out any non-empty piece |
| LineReader.ReadBoundedRecord | src/ingest.rs:216-249 | whatever the pieces, a read consumes through the first newline or the end, keeps the first 1 MiB and reports oversized iff there was more |
| LineReader.ContentLenStops | src/ingest.rs:216-249 | the content ends at the first newline |
| TranscriptScan.IngestTranscript | src/ingest.rs:80-208 | the loop over lines computes the specified batch, for any content read after any sampled length |
| TranscriptLines.MetadataIsNearest | src/ingest.rs:350-365 | each metadata field of a record is its own, else what the nearest earlier session_meta line of the pass says of it, else what the pass began with |
| TranscriptLines.InheritedIsNearest | src/ingest.rs:131-132 | a pass begins without metadata, so a field no earlier line announces is missing |
| TranscriptLines.PassStartsOver | src/ingest.rs:99-107 | a cursor past the end starts over at zero, and a pass yields records from its start on only |
| TranscriptLines.CarriageReturnIsInvisible | src/ingest.rs:157-159 | a carriage return before the newline is not part of the line |
| TranscriptLines.LinesAreCounted | src/ingest.rs:133-205 | every line read is counted once, as oversized, malformed, irrelevant or a token count, with one record for each token count with a reading, and diagnosed in order |
| Resumability.ScanResumes | src/ingest.rs:80-208 | a pass over p + s is the pass over p continued, metadata included |
| Resumability.ContextIsMetadata | src/ingest.rs:350-365 | inherited metadata decides nothing but itself |
| Resumability.UnfinishedTailResumes | src/ingest.rs:159-176 | with an unfinished tail, ingesting p and then p + s equals one pass over p + s |
| Resumability.ResumableExactly | src/ingest.rs:159-176 | this holds for everything that may be appended iff the tail is unfinished |
| Transcripts.TranscriptContinuityMarker | src/persistence/transcripts.rs:103-143 | the marker is the offset, the head and the tail of the consumed prefix |
| Transcripts.MarkerSurvivesAppend | src/persistence/transcripts.rs:103-143 | appending never changes the marker of a committed offset |
| Transcripts.MarkerNamesOffset | src/persistence/transcripts.rs:103-143 | equal markers of 64-bit offsets name equal offsets |
| Transcripts.MarkerDeterminesPrefixExactly | src/persistence/transcripts.rs:103-143 | equal markers imply equal prefixes iff the offset is at most 256 |
| Transcripts.TranscriptStore.InsertObservations | src/persistence/transcripts.rs:161-217 | insert-or-ignore of a batch, with the number of new rows |
| Transcripts.CommitSucceedsExactly | src/persistence/transcripts.rs:64-88 | a commit takes place iff the replay of everything stored and the batch repeats no window start; otherwise nothing changes |
| Transcripts.TranscriptStore.CommitBatch | src/persistence/transcripts.rs:64-88 | snapshots, observations, cursor and windows in one transaction, or the store as it was |
| Transcripts.TranscriptStore.IngestTranscript | src/persistence/transcripts.rs:48-100 | cursor, generation and commit as one sequential step, with appends between opening and reading; it succeeds iff the replay repeats no start |
| Transcripts.IngestInsertsAll | src/persistence/transcripts.rs:53-88 | an ingest of any file content inserts every record it produced, or its replay repeats a start and nothing changes |
| Transcripts.GenerationsAreFresh | src/persistence/transcripts.rs:145-159 | over every history of appends, truncations, replacements, other ingests and manual resets no id is used twice, and the next ingest stores every record it produced iff its replay repeats no start or it produced none |
| StoredSnapshots.ReplaySeesEveryRow | src/persistence/transcripts.rs:64-88 | over every history, the snapshots the windows are replayed from are, for this transcript, exactly the weekly readings of its stored rows, each under the row's id |
| StoredSnapshots.NoRowWithoutSnapshot | src/persistence/transcripts.rs:64-88 | however writers interleave, no row with a weekly reading is stored without a snapshot under its id |
| ConcurrentIngest.OpeningIsGood | src/persistence/transcripts.rs:53-61 | an append-only file is never taken for a replaced one, so a pass starts where the cursor points |
| ConcurrentIngest.ReadIsSafeExactly | src/ingest.rs:143-176 | a read from a line start is safe iff no fragment is reached, or it is left alone because it is not yet a record and the file has not grown since its length was sampled |
| ConcurrentIngest.ReadStaysOnLinesExactly | src/ingest.rs:143-176 | what a read leaves is a line start, whatever is appended later, iff it is safe |
| ConcurrentIngest.ReadKeepsProgress | src/ingest.rs:133-205 | a safe read keeps what a writer has read complete, however the file grew since it was opened |
| ConcurrentIngest.PrepareIsGood | src/persistence/transcripts.rs:53-66 | an undisturbed ingest completes what is covered |
| ConcurrentIngest.CommitIsGood | src/persistence/transcripts.rs:64-100 | a commit keeps everything below the cursor stored, whether it moves the cursor back or is rolled back |
| ConcurrentIngest.EveryInterleavingIsSafe | src/persistence/transcripts.rs:48-100 | the safety invariant holds in every world reached by safe reads, for any number of writers whose cursor read, opening, line reads and commit interleave with appends, other ingests and manual resets |
| ConcurrentIngest.SafeThroughoutExactly | src/ingest.rs:89-176 | a run is safe all along iff every line in it is read safely |
| ConcurrentIngest.NoRecordIsLost | src/persistence/transcripts.rs:48-100 | with safe reads, each record below the committed cursor is stored under its one id and equals the file's record there |
| SoloWriter.AloneIsOneIngest | src/persistence/transcripts.rs:48-100 | a writer that takes its steps alone, line by line, commits what one sequential ingest does |
| LateFragments.LateFragmentIsLostExactly | src/ingest.rs:89-176 | the record an unfinished fragment grows into is lost iff the file had grown when the fragment was reached and the batch can be committed |
| LateFragments.FragmentAfterSampleIsLost | src/ingest.rs:89-176 | a run of one writer that loses a record |
| LateFragments.NothingCanBeLostExactly | src/ingest.rs:89-176 | from no point of a run can a record be lost by safe reads iff the run's own reads are safe |
| CatchUp.OneQuietIngestCatchesUpExactly | src/persistence/transcripts.rs:48-100 | from any safe world one undisturbed ingest leaves every finished record stored iff its replay repeats no start or nothing was missing |
| CatchUp.NeverCatchesUp | src/persistence/transcripts.rs:64-88 | a transcript that begins with resets R, missing, R is never taken into an empty store |
| CatchUp.LostTranscript | src/persistence/transcripts.rs:64-88 | such a transcript, byte by byte |
| WeightedMedian.FindWeightedMedian | src/calibration.rs:538-553 | the loop returns the specified choice |
| WeightedMedian.MedianIsMedian | src/calibration.rs:538-553 | it is a sample value with at least half of the weight at or below it and less than half below, and missing only without samples |
| WeightedMedian.MedianUnique | src/calibration.rs:538-553 | there is only one such value |
| WeightedMedian.MedianIgnoresOrder | src/calibration.rs:543-543 | the order of the samples does not matter |
| WeightedMedian.MedianIsOptimal | src/calibration.rs:538-553 | it minimises the weighted sum of absolute deviations over all reals |
| CalibrationGroups.NormalizeResetJitter | src/calibration.rs:450-469 | the loop in place computes the specified normalisation |
| CalibrationGroups.NormalizationMovesLittle | src/calibration.rs:450-469 | each reset moves by at most 60 s and none appears or vanishes |
| CalibrationGroups.ConsecutiveEqualOrApart | src/calibration.rs:450-469 | consecutive readings of a window end with one reset time or in different epochs |
| CalibrationGroups.NormalizationIdempotent | src/calibration.rs:450-469 | a second pass is the identity |
| CalibrationGroups.GroupObservations | src/calibration.rs:229-254 | the grouping loop computes the specified ordered groups and the number left out |
| CalibrationGroups.GroupedExactly | src/calibration.rs:229-254 | each group holds exactly the observations of its key, in order; nothing is lost |
| CalibrationGroups.ExactlyOneGroupEach | src/calibration.rs:229-254 | every timestamped paired observation is in exactly one group |
| CalibrationGroups.GroupsAreTight | src/calibration.rs:211-254 | members of a group the report builds have its key and identity, and the observations they were normalised from had reset times within 120 s |
| CalibrationGroups.RetainedExactly | src/calibration.rs:213-222 | only the target identity is kept, each observation as often as it occurs |
| CalibrationReport.CollectSamples | src/calibration.rs:256-317 | the sample loop, with every group either sampled or counted as excluded |
| CalibrationReport.SampleMeansMovement | src/calibration.rs:471-497 | what a sample says: movement within range, quality and eligibility by movement, time order, the implied ratio |
| CalibrationReport.GatherEvidence | src/calibration.rs:211-319 | sorting, normalising, filtering, grouping and sampling in sequence |
| CalibrationReport.EvidenceIgnoresArrival | src/calibration.rs:211-212 | with distinct times the order of arrival does not matter |
| CalibrationReport.PercentileGrows | src/calibration.rs:555-564 | percentiles of ordered values rise with the fraction |
| CalibrationReport.QuartilesAreOrdered | src/calibration.rs:331-339 | the quartiles are ordered, and the relative spread exists iff a sample qualifies and is never negative |
| CalibrationFigures.IdentityIsNewest | src/calibration.rs:211-217 | the report is about the identity of the newest observation, the last to arrive among equally new ones |
| CalibrationFigures.SampleExactly | src/calibration.rs:256-282 | a group yields a sample iff both windows rise between its first and last reading, and the sample is that rise |
| CalibrationFigures.EvidenceExactly | src/calibration.rs:224-319 | the samples are those of the groups of that identity, as often as groups yield them, oldest first, and everything else is counted as excluded |
| CalibrationFigures.CentreExactly | src/calibration.rs:330-360 | windows of at least half of all eligible five-hour movement imply at most the centre, windows of less than half imply less, an eligible window implies it, and it is proposed iff five windows are eligible |
| CalibrationFigures.CandidateIsCentre | src/calibration.rs:538-553 | the candidate is the only value of which that holds |
| CalibrationFigures.QuartilesExactly | src/calibration.rs:325-334 | the quartiles are those of any ordering of the eligible implied values, each as often as it occurs |
| CalibrationFigures.PercentileIsLinear | src/calibration.rs:555-564 | between two ranks a percentile follows the straight line through their values |
| CalibrationFigures.SpreadExactly | src/calibration.rs:335-339 | the spread is the distance of the quartiles relative to the centre |
| CalibrationFigures.DriftExactly | src/calibration.rs:361-364 | the drift is the centre's distance from the current calibration in percent, with its sign |
| CalibrationReport.RecommendedExactly | src/calibration.rs:361-370 | a change is recommended iff five windows qualify, the drift is a tenth, the spread a quarter at most, and it was confirmed twice |
| CalibrationState.AnalysisStore.Observe | src/persistence/transcripts.rs:161-217 | observations are inserted or ignored, never deleted |
| CalibrationState.ObservedExactly | src/persistence/transcripts.rs:161-217 | over any run of observations the table holds exactly the first one of each key, once |
| CalibrationState.AnalysisStore.AnalyzeCalibration | src/persistence/calibration_state.rs:31-127 | one analysis upserts exactly the row of its identity and reports that row's count |
| CalibrationState.RowsFollowHistories | src/persistence/calibration_state.rs:107-124 | the row of an identity depends on its own analyses only |
| CalibrationState.CountZeroExactly | src/persistence/calibration_state.rs:51-67 | the stored count is zero iff there is no candidate iff fewer than five samples qualified |
| CalibrationState.CountIsStreak | src/persistence/calibration_state.rs:51-67 | the count is the number of raises since the last one that confirmed nothing |
| CalibrationState.StreakExists | src/persistence/calibration_state.rs:51-67 | with a candidate there always is such a raise |
| CalibrationState.ConfirmedExactly | src/persistence/calibration_state.rs:51-67 | the count reaches two iff some raise confirmed its predecessor within 2% and nothing started over since |
| CalibrationState.RecommendationNeedsTwoRaises | src/calibration.rs:367-370 | a recommendation rests on two analyses that each raised the stored count, the later confirming its predecessor |
| CalibrationState.ReanalysisIsIdle | src/persistence/calibration_state.rs:51-67 | analysing the same evidence again, however often, changes nothing |
| CalibrationState.NextRaiseIsNewExactly | src/persistence/calibration_state.rs:55-60 | every possible next raise exceeds all earlier counts iff none of them both exceeds the stored count and had a candidate |
| CalibrationState.ReturningEvidenceConfirmsItself | src/persistence/calibration_state.rs:55-60 | evidence that vanishes and returns reaches a count of two |
| VanishingEvidence.TableIsBuilt | src/calibration.rs:205-254 | what sorting, normalising, filtering and grouping make of two readings in each of n epochs |
| VanishingEvidence.GrowingTableConfirmsItself | src/persistence/calibration_state.rs:51-67 | a growing table whose analyses see n, n - 1 and n windows and reach a count of two |
| VanishingEvidence.YieldsEpochs | src/calibration.rs:229-254 | the three states of that table group into the same n epochs, so no window is ever added |
| HookCommand.DecodePosixSingleQuoted | src/hooks.rs:408-427 | the loop inverts quoting: what it returns quotes to the input, and it rejects only what is no quoting |
| HookCommand.DecodeExactly | src/hooks.rs:408-427 | a text decodes to d iff it is the quoting of d |
| HookCommand.CommandRoundTrip | src/hooks.rs:376-406 | reading a generated command back gives the path, for every path and event |
| HookCommand.CommandsKeepTheirEvent | src/hooks.rs:392-394 | a generated command is never read as belonging to another event |
| LegacyCommands.DoubleQuotedIsRead | src/hooks.rs:400-405 | a path in double quotes, its own escaped, is read back for every path and event |
| LegacyCommands.BareIsRead | src/hooks.rs:400-405 | a bare path without quotes, and without white space at its ends, is read as it stands |
| ShellWords.QuoteEvaluatesToPath | src/hooks.rs:376-385 | a POSIX shell evaluates the quoted path to one word, the path |
| ShellWords.ShellRunsThePath | src/hooks.rs:376-385 | the generated command has exactly the words path, hook and event name |
| ShellWords.RecognisedIsWhatRunsExactly | src/hooks.rs:392-406 | a single-quoted command, trimmed and recognised, runs the executable it is read as iff everything trimmed is a space or a tab |
| ShellWords.OddLeadIsNotRun | src/hooks.rs:394-394 | other white space before the quotes is trimmed, and yet the command is not the words it is read as |
| HookLists.FileNameOfJoin | src/hooks.rs:453-461 | the file name of a joined path, trailing slashes included |
| HookLists.GeneratedIsOwnedExactly | src/hooks.rs:441-462 | a generated handler is recognised iff the executable carries an owned name |
| HookLists.GeneratedIsNotOwnedElsewhere | src/hooks.rs:441-462 | and never under another event |
| LegacyCommands.FileNameOfDots | src/hooks.rs:453-455 | a last path component of one dot is passed over, one of two dots has no file name |
| LegacyCommands.OwnedExactly | src/hooks.rs:441-462 | a handler is owned iff its command is read as running an executable with an owned name; the comparison with the two bare commands adds nothing |
| LegacyCommands.OwnNamesExactly | src/hooks.rs:453-461 | in whatever directory, the owned names are the current and the former one, each also with .exe |
| HookLists.RetainUnowned | src/hooks.rs:467-467 | the retain loop over one group's handlers |
| HookLists.RemoveOwnedHandlers | src/hooks.rs:464-476 | strip, then drop: the two passes compute the specified list |
| HookLists.RemovalKeepsForeign | src/hooks.rs:464-476 | removal keeps exactly the foreign entries, in order, with their group fields |
| HookLists.RemovalKeepsSurvivors | src/hooks.rs:470-475 | a group remains iff it has no hooks array or a foreign handler, and then without its owned handlers |
| HookLists.RemovalIdempotent | src/hooks.rs:464-476 | a second removal changes nothing |
| HookLists.RemoveUndoesInstallExactly | src/hooks.rs:262-280 | on one list, uninstall after install equals uninstall iff the new handler is recognised |
| HookLists.InstallIdempotentExactly | src/hooks.rs:262-280 | on one list, installing twice equals once iff the new handler is recognised |
| HookLists.OneOwnedHandler | src/hooks.rs:262-280 | exactly one owned handler after an install with an owned name, otherwise none |
| HooksFile.HooksFile.Install | src/hooks.rs:245-286 | the whole new file, or an error and the file as it was |
| HooksFile.HooksFile.Uninstall | src/hooks.rs:288-315 | the same for uninstall |
| HooksFile.InstallSucceedsExactly | src/hooks.rs:245-286 | install succeeds iff confirmed, with a Unicode path and a well-shaped file, and rewrites exactly the three lists |
| HooksFile.InstallFailsExactly | src/hooks.rs:245-286 | which of the three errors an install reports |
| HooksFile.InstallLeavesOneEach | src/hooks.rs:262-280 | per event: the foreign entries in order, then the one new handler |
| HookRuns.CommandNameIsKebab | src/hooks.rs:63-77 | for every event the word on the command line is the kebab-case form of its name in the file |
| HookRuns.ParseExactly | src/hooks.rs:53-61 | a word is parsed as an event iff it is that event's word |
| HookRuns.InstalledRunsItself | src/hooks.rs:262-280 | after an install, the last group in the list of each of the three names runs the installed path with the word that is parsed as the event of that very list; other names are as before |
| HooksFile.InstallTwiceExactly | src/hooks.rs:245-286 | installing again leaves the file equal iff the executable carries an owned name |
| HooksFile.UninstallEventsExactly | src/hooks.rs:297-311 | uninstall cleans the three lists and leaves malformed and other entries alone |
| HooksFile.UninstallUndoesInstallExactly | src/hooks.rs:288-315 | uninstall after install equals uninstall on each list, absent read as empty, iff the executable carries an owned name; nothing else is touched |
| HooksFile.InstalledValidates | src/hooks.rs:478-517 | a fresh installation validates however paths are canonicalised |
| HookRuns.ExpectedIsGenerated | src/hooks.rs:489-508 | among handlers with the generated command, validation accepts the generated one only, status text aside |
| HooksFile.UninstalledValidatesExactly | src/hooks.rs:478-517 | after uninstall the file validates iff each event has a foreign entry that is expected |
| HooksFile.UninstalledDoesNotValidate | src/hooks.rs:478-517 | so no path validates all of whose aliases carry an owned name |

## Left out

- BatchingIsIrrelevantExactly: weekly-only data without manual resets and one observation per id; for paired data `IngestAsOneReplayExactly` gives the condition on what the previous table pins, step by step along the replay.
- IngestOrderedExactly: the windows being in order, not their being disjoint; out of order they may be disjoint or not.
- NothingCanBeLostExactly: assumes that every fragment a writer meets can grow into a record and that a batch which reads past one can be committed; a batch that cannot be committed loses nothing.
- NoRecordIsLost: one append-only transcript, with metadata inherited from `session_meta` set aside; file replacement is covered for sequential runs only (`GenerationsAreFresh`), because a stale commit can move the generation back. The two marker reads are part of the opening and of the last line read, which `MarkerSurvivesAppend` justifies.
- GrowingTableConfirmsItself: observation times that tie are kept in order of arrival rather than of source and offset.
- ResumableExactly: assumes that the parser rejects the empty line, as every JSON parser does, and sets inherited metadata aside, because each pass starts with an empty context.
- ShellWords.Words: text with expansions, operators, escapes or comments counts as not literal instead of being evaluated.
- SQLite, file I/O, locks, timeouts and retries: a table is a sequence or map, an immediate transaction one atomic step. A sequential pass reads one content; among concurrent writers each line is a step of its own.
- JSON and RFC 3339 parsing, schema fingerprints, and the check of observation times against the clock: the parse function of lines and the decoding of records to snapshots are fixed and arbitrary.
- Text order of stored timestamps and of source paths: rows are ordered by time and an abstract id order.
- The snapshot and observation tables share one row per id here; the join in `load_replay_items` is otherwise not modelled.
- Floating-point rounding, negative zero, and saturation of 32 and 64 bit counters: reals and unbounded integers.
- The `reset_events`, `emitted_warnings` and `calibration_samples` tables, and calibration ids (a hash): `EventsExactly` says which events a replay notes, but not how their rows are replaced.
- `discover_recent_transcripts`: directory walking and its sort.
- Calibration confidence levels, outlier counts, report generation reasons, profile application: easy arithmetic on the modelled report.
- Non-Unix quoting and path comparison, and the handling of hook input and output.
- Migrations, backups, display freshness, command line, doctor, setup and release checks: mostly linear glue.
- Cursors with an empty marker from an older schema: runs start from a fresh store.
