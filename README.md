# Task scheduler: a verified model

A model, in Dafny, of the core of a small interval-based task reminder written
in Rust. A task has a name, an interval (hourly, daily or weekly), the instant
of its last run and an enabled flag. The model covers:

- the due rule `Task::should_run` and the loops that select due tasks
  (`check_tasks` in the desktop application, `tasks_to_run` in the scheduler
  snapshot, the hour-based `run-check` of the command-line snapshot);
- the library's persistence engine. `save_tasks` clears the file for an empty
  list. Otherwise it loads the current list with retries, merges by name,
  writes a temporary file, renames it onto `tasks.json` and sweeps stray
  temporary files. `load_tasks` decodes strictly first, then falls back field
  by field. The application's own `save_tasks_cmd` is modelled too;
- the task-list arms of the desktop application's `update` and the name order
  of the overview;
- the command loop of the command-line snapshot.

Files, one module each:

| file | module | what it holds |
|---|---|---|
| wrappers.dfy | Wrappers | `Option`, `Result` |
| model.dfy | Model | `Interval`, `Task`, `Display`, `Task::new`, `mark_complete` |
| due.dfy | Due | chrono's truncating `num_hours`/`num_days`/`num_weeks`, `should_run`, the selection of due indices |
| text.dfy | Text | `trim`, `split_whitespace`, `parse::<usize>`, decimal spelling, `to_lowercase` on the interval words, `String` order |
| codec.dfy | Codec | the JSON value, serde's encoder and strict decoder, the fallback projection |
| merge.dfy | Merge | the merge-by-name of `save_tasks`, as a function and as the in-place loop |
| storage.dfy | Storage | the configuration directory as a map, `load_tasks`, `save_tasks`, `save_tasks_cmd` |
| tasklist.dfy | TaskList | stamping, toggling and removing entries of a task vector |
| snapshot_store.dfy | SnapshotStore | the plain load and save the command-line snapshots call |
| runner.dfy | Runner | the scheduler snapshot |
| app.dfy | App | `check_tasks`, the overview order, the `TaskScheduler` state and its updates |
| cli.dfy | Cli | command parsing and the command-line loop |

Modelling choices:

- Timestamps are whole seconds.
- Durations are divided truncating toward zero, as chrono does. `num_weeks` is
  whole days divided by seven, which is chrono's own definition.
- The configuration directory is a `map` from file names to contents inside
  the class `Storage.Store`. A content is unreadable bytes, text that is not
  JSON, or a parsed JSON document.
- The random temporary suffix is a parameter, bounded by the `u64` range.
- Which file operations fail is a `Faults` parameter.
- The tokio sleeps are recorded, in milliseconds, in the `sleeps` field.
- chrono's formatting and parsing of instants are opaque function values
  (`Codec.Chrono`). The round-trip lemmas assume only that serde reads back
  what it writes (`ReadsBack`), or that the RFC 3339 reader of section 5.6 of
  RFC 3339 accepts it (`Rfc3339ReadsBack`).
- The temporary file of `save_tasks` is named as the code names it.
  `with_extension("tmp.N")` replaces `json`, giving `tasks.tmp.N`. The sweep
  removes names starting with `tasks.json.tmp.`, so it never removes a
  temporary file this code creates. `Storage.SweepSparesOwnFiles` proves
  this, and the model keeps the behaviour as written. `fs::write` creates
  its file before writing, so a failed write can leave a partial
  temporary file (`Faults.leftover`); `Storage.LeftoverNeverSwept` shows that
  a partial `tasks.tmp.N` survives every later sweep.
- The guard at the top of the retry loop (src/lib.rs:88-93) can never fire.
  The counter stays below three, and the third failed load returns its own
  error first. The loop invariant of `Storage.Store.LoadCurrent` records this.
- The fallback decoder recognises only the exact spellings `Hourly`,
  `hourly`, `Weekly` and `weekly` (src/lib.rs:191-192), not any other case of
  the words.

## Model

| member | source | states |
|---|---|---|
| Model.DisplayNames | milestones/code_snapshots/rust_week2_model.rs:15-23 | each interval prints as `Hourly`, `Daily`, `Weekly` |
| Model.DisplayInjective | milestones/code_snapshots/rust_week2_model.rs:15-23 | two intervals print alike exactly when they are equal |
| Model.NewTask | milestones/code_snapshots/rust_week2_model.rs:33-42 | a new task keeps its name and interval, has never run and is disabled |
| Model.MarkComplete | src/lib.rs:60-62 | completion sets the last run to `now` and keeps name, interval and flag |
| Due.TruncDiv | src/lib.rs:51-53 | the quotient brackets the duration between two multiples, toward zero for either sign |
| Due.ElapsedUnitsAtLeastOne | src/lib.rs:50-54 | one whole hour, day or week has elapsed exactly when the duration reaches 3600, 86400 or 604800 seconds |
| Due.DueIff | src/lib.rs:44-58 | due exactly when enabled and either never run or last run at least one full period ago |
| Due.DisabledNeverDue | src/lib.rs:45-47 | a disabled task is never due |
| Due.NeverRunIsDue | src/lib.rs:55-57 | an enabled task that has never run is due |
| Due.FutureLastRunNotDue | src/lib.rs:339-349 | a last run at or after `now` never makes a task due |
| Due.MarkedNotDue | src/lib.rs:289-300 | a task just marked complete is not due at that instant |
| Due.NewTaskNotDue | src/lib.rs:245-250 | a freshly created task is not due |
| Due.DueExamples | src/lib.rs:245-286 | 2 h, 2 d and 2 w ago are due; 30 min, 23 h and 6 d ago are not; a future last run is not; never run is due only when enabled |
| Due.EveryHourIff | milestones/code_snapshots/rust_week4_cli.rs:74-80 | the hour rule fires exactly for enabled tasks never run or run at least 3600 s ago |
| Due.FiresOnlyEnabled | src/main.rs:124-127 | under either rule only enabled tasks are selected |
| Due.DueIndicesSpec | milestones/code_snapshots/rust_week5_scheduler.rs:13-40 | the selection is in range, strictly increasing, and holds an index exactly when its task fires |
| Text.TrimEnds | milestones/code_snapshots/rust_week4_cli.rs:14-20 | a trimmed line is empty or starts and ends with a non-whitespace character |
| Text.TrimEmptyIff | src/main.rs:681 | a name trims to the empty string exactly when it is all whitespace |
| Text.TrimIdempotent | milestones/code_snapshots/rust_week4_cli.rs:19 | trimming twice is trimming once |
| Text.TrimUnchanged | milestones/code_snapshots/rust_week4_cli.rs:19 | a string without whitespace at either end is its own trim |
| Text.SplitTokens | milestones/code_snapshots/rust_week4_cli.rs:27 | every token is non-empty and holds no whitespace |
| Text.SplitEmptyIff | milestones/code_snapshots/rust_week4_cli.rs:27-30 | a line gives no tokens exactly when it is all whitespace |
| Text.SplitWord | milestones/code_snapshots/rust_week4_cli.rs:27 | a single word splits into itself |
| Text.SplitTwoWords | milestones/code_snapshots/rust_week4_cli.rs:27 | two words joined by a space split into those two words |
| Text.DecimalValue | src/lib.rs:131 | the decimal spelling of a number denotes that number |
| Text.ParseDecimal | milestones/code_snapshots/rust_week4_cli.rs:61 | every `usize` parses back from its decimal spelling, with or without a leading `+` |
| Text.ParsedIsDigits | milestones/code_snapshots/rust_week4_cli.rs:61 | whatever parses is an optional `+` followed by digits only |
| Text.OverflowRejected | milestones/code_snapshots/rust_week4_cli.rs:61 | a number beyond the 64-bit range does not parse |
| Text.Lower | milestones/code_snapshots/rust_week4_cli.rs:46 | lower-casing keeps the length and maps each character on its own |
| Text.LowerAnyCase | milestones/code_snapshots/rust_week4_cli.rs:46 | an ASCII lower-case word with each letter in either case lower-cases to that word |
| Text.LessIrreflexive | src/main.rs:272 | no name sorts before itself |
| Text.LessAsymmetric | src/main.rs:272 | two names never sort before each other |
| Text.LessTransitive | src/main.rs:272 | the name order is transitive |
| Text.LessTotal | src/main.rs:272 | of two different names one sorts first |
| Codec.VariantNamedInverse | src/lib.rs:9-14 | serde reads a variant name back as that interval and no other string as it |
| Codec.StrictRoundTrip | src/lib.rs:311-336 | the strict decoder reads back exactly the list the encoder wrote, names and flags included |
| Codec.Fallback | src/lib.rs:182-221 | the fallback gives one task per array element, in order, each the projection of its element |
| Codec.ProjectDefaults | src/lib.rs:184-211 | an element without usable members becomes the task `""`, daily, never run, disabled |
| Codec.IntervalTable | src/lib.rs:190-194 | only `Hourly`/`hourly` give hourly and only `Weekly`/`weekly` give weekly; all else is daily |
| Codec.WrongTypesDefault | src/lib.rs:196-211 | members of the wrong type, or a timestamp that is not RFC 3339, take their defaults |
| Codec.ProjectEncoded | src/lib.rs:213-218 | the projection of an encoded task is that task |
| Codec.FallbackRoundTrip | src/lib.rs:178-221 | the fallback, too, reads back exactly the list the encoder wrote |
| Merge.FindByName | src/lib.rs:120 | the index found is the first with that name, and none is found exactly when the name is absent |
| Merge.UpsertShape | src/lib.rs:119-124 | one step keeps every position and name, overwrites only a task of the same name, and appends exactly when the name was absent |
| Merge.UpsertLookup | src/lib.rs:120-123 | after one step a reader finds the incoming task under its name and other names unchanged |
| Merge.UpsertDistinct | src/lib.rs:119-124 | one step keeps names distinct |
| Merge.MergePositions | src/lib.rs:117-125 | every stored task keeps its position and name; the tasks past them are incoming ones with names not stored |
| Merge.MergeNames | src/lib.rs:117-125 | the merged list holds exactly the stored and the incoming names |
| Merge.MergeLookup | src/lib.rs:117-125 | under every name a reader finds the last incoming task of that name, else the stored one |
| Merge.MergeLength | src/lib.rs:117-125 | the list grows by exactly the number of incoming names that were not stored |
| Merge.MergeDistinct | src/lib.rs:117-125 | distinct stored names stay distinct |
| Merge.MergeExact | src/lib.rs:117-125 | the first stored task of a name becomes the last incoming task of that name; every other stored task is kept |
| Merge.MergeIdempotent | src/lib.rs:117-125 | merging the same tasks a second time changes nothing |
| Merge.MergeExamples | src/lib.rs:117-125 | a new name is appended at the end; a known name is overwritten in place |
| Merge.NewNamesSpec | src/lib.rs:117-125 | the names the merge appends are exactly the incoming names not stored, each once |
| Merge.MergeTail | src/lib.rs:117-125 | past the stored tasks the merged list holds one task per new name, in order of first appearance in the input, each the last incoming task of that name |
| Merge.MergeTasks | src/lib.rs:118-125 | the in-place loop computes the merge |
| Storage.SweepSparesOwnFiles | src/lib.rs:131-153 | the sweep removes neither the target nor `tasks.tmp.N` nor `tasks.json.tmp` |
| Storage.DelaysBeforeGivingUp | src/lib.rs:99-104 | the two pauses before the third failed load are 20 ms and 40 ms |
| Storage.LoadMissing | src/lib.rs:166-168 | a missing file loads as the empty list |
| Storage.LoadErrors | src/lib.rs:170-180 | unreadable bytes, text that is not JSON, and a document that is not an array are each an error |
| Storage.LoadArray | src/lib.rs:174-221 | an array always loads, one task per element, each the fallback's reading when the strict decoder refuses |
| Storage.LoadLenientExample | src/lib.rs:190-194 | a lower-case interval without `last_run` loads through the fallback as that interval, never run |
| Storage.LoadWritten | src/lib.rs:127-134 | a file holding the encoder's document loads as exactly that list |
| Storage.SweptKeepsTarget | src/lib.rs:146-159 | the sweep keeps the target and its content |
| Storage.Store.Load | src/lib.rs:164-222 | the loop-built result is `LoadFrom` of the directory: a missing file is empty, the strict decoder first, then the fallback; `load_tasks_cmd` at src/main.rs:159-219 does the same |
| Storage.Store.Sweep | src/lib.rs:146-159 | exactly the entries named `tasks.json.tmp.…` are deleted; every other entry is unchanged |
| Storage.Store.LoadCurrent | src/lib.rs:84-115 | a missing file is the empty list; a failing load is retried twice after 20 ms and 40 ms, then its error returned; nothing is written |
| Storage.Store.Save | src/lib.rs:73-162 | an empty list removes the file and a later load gives `[]`; a failed read writes nothing; a failed write leaves at most a partial `tasks.tmp.N`; otherwise the target holds the merge, the temp is removed on a failed rename, and a later load gives the merge |
| Storage.Store.Commit | src/lib.rs:127-161 | write, rename and sweep: each failure's result and directory (a failed write may leave a partial `tasks.tmp.N`), and on success a swept directory whose target loads as the merged list |
| Storage.Store.SaveAll | src/main.rs:147-157 | `save_tasks_cmd` writes exactly the list, with no merge and no special empty case, via `tasks.json.tmp`; a failed write may leave a partial `tasks.json.tmp`; a later load gives the list |
| Storage.FailedWriteSparesOthers | src/lib.rs:133-134 | a failed write to a temporary file changes no other entry, and the task list loads as before |
| Storage.LeftoverNeverSwept | src/lib.rs:131-153 | a partial `tasks.tmp.N` left by a failed write survives the sweep with its content |
| Storage.Lifecycle | tests/integration_tests.rs:33-67 | clearing then loading gives `[]`; saving two new tasks then loading gives them in order with their flags |
| TaskList.MarkAt | src/main.rs:630-632 | an in-range index is stamped with `now`; every other entry, and an out-of-range index, leaves the vector as it was |
| TaskList.Stamp | milestones/code_snapshots/rust_week5_scheduler.rs:46-50 | exactly the listed indices are stamped with `now`; the other tasks are untouched |
| TaskList.StampDueClears | milestones/code_snapshots/rust_week5_scheduler.rs:42-52 | once the due tasks are stamped, none is due at that instant |
| TaskList.Toggle | src/main.rs:871-873 | only the flag of task `idx` flips, and only when `idx` is in range |
| TaskList.ToggleTwice | src/main.rs:871-873 | toggling the same index twice restores the vector |
| TaskList.RemoveAt | src/main.rs:708-709 | removal shifts the later tasks down by one and keeps their order |
| TaskList.RemoveAtMultiset | src/main.rs:709 | removal drops exactly the task at the index |
| SnapshotStore.Saved | milestones/code_snapshots/rust_week3_persistence.rs:20-29 | a successful save leaves a file that loads as exactly the list; a failed one changes nothing |
| Runner.TasksToRun | milestones/code_snapshots/rust_week5_scheduler.rs:13-40 | the indices are in range and strictly increasing, and hold exactly the due tasks |
| Runner.MarkRun | milestones/code_snapshots/rust_week5_scheduler.rs:46-50 | exactly the selected tasks are stamped with `now` |
| Runner.RunOnce | milestones/code_snapshots/rust_week5_scheduler.rs:42-52 | the pass stamps the due tasks and saves; after a successful save no stored task is due at that instant |
| App.CheckTasks | src/main.rs:120-145 | one `(idx, true)` per due task, indices in range and strictly increasing, disabled tasks skipped |
| App.PrecedesAsymmetric | src/main.rs:270-278 | the listing order is asymmetric |
| App.PrecedesTotal | src/main.rs:270-278 | of two different indices one is listed first |
| App.PrecedesTransitive | src/main.rs:270-278 | the listing order is transitive |
| App.InsertAt | src/main.rs:270-278 | one insertion pass keeps the entries and sorts one more prefix position |
| App.OverviewOrder | src/main.rs:269-278 | the index list is a permutation of `0..len`, by name ascending or descending, with equal names in index order |
| App.StampReported | src/main.rs:628-639 | every reported index in range is stamped; the flag says whether any was |
| App.Scheduler.SwitchTo | src/main.rs:650-653 | only the screen changes |
| App.Scheduler.TaskNameChanged | src/main.rs:654-657 | only the name input changes |
| App.Scheduler.IntervalChanged | src/main.rs:676-679 | only the chosen interval changes |
| App.Scheduler.AddTask | src/main.rs:680-701 | a blank trimmed name changes nothing; otherwise the new task under the trimmed name is appended, the input cleared, the overview shown and a save requested |
| App.Scheduler.DeletePressed | src/main.rs:702-705 | the index is remembered, unchecked |
| App.Scheduler.ConfirmDelete | src/main.rs:706-728 | the pending index is always cleared; the task is removed and a save requested only when it was in range |
| App.Scheduler.CancelDelete | src/main.rs:729-732 | only the pending index is cleared |
| App.Scheduler.ToggleEnable | src/main.rs:871-882 | exactly task `idx` flips and a save is requested; out of range nothing changes |
| App.Scheduler.TaskCheckComplete | src/main.rs:627-649 | in-range indices are stamped, others ignored; a save is requested exactly when one was in range |
| App.Scheduler.LoadResult | src/main.rs:820-843 | a loaded list replaces the tasks, an error keeps them, and loading ends |
| App.Scheduler.ToggleSort | src/main.rs:658-661 | only the sort direction flips |
| App.Tick | src/main.rs:619-649 | after a tick and its completion nothing is due, and a save is requested exactly when some task was due |
| App.ToggleTwiceRestores | src/main.rs:871-882 | two toggles of one index restore the task list |
| Cli.ParseIntervalIff | milestones/code_snapshots/rust_week4_cli.rs:46-50 | hourly exactly for `hourly` in any case, weekly exactly for `weekly`, daily for everything else |
| Cli.ParseDisplayed | milestones/code_snapshots/rust_week4_cli.rs:45-50 | each interval's printed name reads back as that interval |
| Cli.ParseUpperCase | milestones/code_snapshots/rust_week4_cli.rs:46-47 | `HOURLY` is hourly |
| Cli.ParseHourlyAnyCase | milestones/code_snapshots/rust_week4_cli.rs:46-47 | `hourly` with each of its six letters in either case is hourly |
| Cli.ParseWeeklyAnyCase | milestones/code_snapshots/rust_week4_cli.rs:46-48 | `weekly` with each of its six letters in either case is weekly |
| Cli.ParseKelvinSign | milestones/code_snapshots/rust_week4_cli.rs:46-48 | `WEE` + KELVIN SIGN + `LY` lower-cases to `weekly` |
| Cli.ParseUnknown | milestones/code_snapshots/rust_week4_cli.rs:46-49 | `monthly` and the empty answer are daily |
| Cli.BlankIff | milestones/code_snapshots/rust_week4_cli.rs:26-30 | a line is skipped exactly when it is all whitespace |
| Cli.ToggleLine | milestones/code_snapshots/rust_week4_cli.rs:59-61 | `toggle N` reads index N for every `usize` N |
| Cli.OneWord | milestones/code_snapshots/rust_week4_cli.rs:27-31 | a one-word line is dispatched on that word |
| Cli.HourlyCheck | milestones/code_snapshots/rust_week4_cli.rs:70-86 | `run-check` reports, in order, exactly the enabled tasks never run or run at least an hour ago |
| Cli.HourlyCheckIgnoresInterval | milestones/code_snapshots/rust_week4_cli.rs:74-80 | a daily task run two hours ago is reported though it is not due |
| Cli.Step | milestones/code_snapshots/rust_week4_cli.rs:26-89 | one pass of the loop: only `quit` answers `Quitting` and stops the loop, and only `add` and `toggle` change the file |
| Cli.AddOverUnreadable | milestones/code_snapshots/rust_week4_cli.rs:43-57 | an add over a missing or undecodable file saves the new task alone, discarding the old contents, and a following `list` shows just that task; over a task list it appends; a failed save leaves the file and replies with the error |
| Cli.Replay | milestones/code_snapshots/rust_week4_cli.rs:24-90 | after `n` lines there are at most `n` replies, and exactly `n` while the loop still reads |
| Cli.ReplaySettles | milestones/code_snapshots/rust_week4_cli.rs:87 | once the loop has stopped, later lines change neither the file nor the replies |
| Cli.ReplayStops | milestones/code_snapshots/rust_week4_cli.rs:24-87 | `Quitting` answers exactly the lines that say `quit`, only as the last reply, and the loop reads on exactly when none was answered |
| Cli.SessionEnds | milestones/code_snapshots/rust_week4_cli.rs:24-90 | where the loop stops is where the whole session ends, and its replies say `Quitting` exactly for the lines that parse to `quit` |
| Cli.Shell.AddCommand | milestones/code_snapshots/rust_week4_cli.rs:43-58 | the prompted task is appended to the loaded list, or to `[]`, and saved |
| Cli.Shell.ToggleCommand | milestones/code_snapshots/rust_week4_cli.rs:59-69 | the list is flipped and saved only when the index parsed and is in range |
| Cli.Shell.Handle | milestones/code_snapshots/rust_week4_cli.rs:26-89 | the new file, reply and running flag are those of `Step`: each command's reply and file; only `quit` stops the loop; an unknown word changes nothing |
| Cli.Shell.Session | milestones/code_snapshots/rust_week4_cli.rs:24-90 | the final file, the replies and the running flag are `Replay` of all lines: each line is parsed and handled by `Step` on the file the previous lines left, in order, and the loop stops right after the first `quit` |

## Left out

- The iced user interface: views, subscriptions, theming, key bindings and layout. It is presentation only.
- The `history` log, the toasts with their expiry, and `is_saving`. They are messages and timers the task list does not depend on.
- The `Save`, `Load` and `SaveResult` messages only set flags and start the `save_tasks_cmd` and `load_tasks_cmd` actions, which are modelled.
- The background progress counter. It is floating point.
- Logging setup. It is process configuration.
- `ProjectDirs` path resolution. It is a foreign call, modelled as the flag `located` of `Storage.Store`.
- The JSON text layer (serde_json parsing and pretty printing). Files hold parsed values or an error marker.
- The array form of serde's struct decoding, and serde's rejection of duplicate members. The strict decoder models the object form only.
- Codec.StrictTask: accepts the interval only in its string form. serde's externally tagged enum also reads the map form `{"Hourly": null}`. On such a file the model goes through the fallback and reads the interval as daily, where the program loads it as hourly.
- Timezone conversion. Instants are plain seconds.
- The random generator. The temporary suffix is a parameter.
- Concurrent writers racing on the shared file. The model is one sequential save, so a failing load fails on every attempt. The retries are modelled only as the recorded pauses.
- The CLI loop runs until its inputs end, whereas the source keeps reading at end of input.
- App.Scheduler.TaskCheckComplete: the source reads the clock once per index (src/main.rs:632). The model uses one `now` for the whole message.
- App.Tick: one `now` serves both the check (src/main.rs:121) and the stamps (src/main.rs:632). The tick and its `TaskCheckComplete` also run back to back here. iced can deliver other messages in between, for example a `ConfirmDelete` that shifts the indices.
- Runner.RunOnce: one `now` serves both the selection and the stamps. `tasks_to_run` reads its own clock (milestones/code_snapshots/rust_week5_scheduler.rs:14), and the stamping loop reads it again for each index (line 48).
- Runner.MarkRun: stamps every selected task with one `now`, where the source reads the clock for each index (milestones/code_snapshots/rust_week5_scheduler.rs:48).
- Storage.Store.Commit: removing the temporary file after a failed rename always succeeds here. The source ignores any failure of that removal (src/lib.rs:139). `Faults.remove` covers only the removal of the target for an empty list.
- Storage.Store.Sweep: the directory listing and every stray removal always succeed here. In the source, a failed `read_dir` skips the sweep (src/lib.rs:147), and an entry that cannot be read or named is skipped (src/lib.rs:148-149). A failed removal keeps its file (src/lib.rs:154).
- The printed text of the command-line replies. Replies are a datatype.
- The persistence helpers of the command-line snapshots (milestones/code_snapshots/rust_week3_persistence.rs) are reduced to what their callers observe. The file is missing, undecodable or a list, and a save succeeds or fails.
- Text.Lower: models Unicode lower-casing only as far as it decides equality with `hourly` and `weekly`. ASCII capitals and KELVIN SIGN are mapped; other characters are kept, and the length never changes.
- The week 1 and week 6 snapshots. They only print or build a window.
