# slurm_utils in Dafny

A model of the decision logic of `slurm_utils`, a small toolkit that supervises jobs on a
Slurm cluster. The model covers five pieces:

- **Stuck-job killer** (`kill_stuck_jobs.dfy`):
  - `ErrorMonitor` remembers, per job, when its log last changed.
  - `StuckJobKiller.Poll` runs one tick: it walks the `.slurm_job` registrations in
    descending job-id order.
  - A job whose log holds `Error` gets its log rewritten to `ERROR`.
  - A job whose log has stopped changing loses its registration.
  - Either kind of job is cancelled if still queued and resubmitted with `sbatch train.sh`.
  - Registrations of finished jobs older than 150 hours are removed.
- **Memory-based resubmitter** (`resubmit_stuck_jobs.dfy`):
  - `update_memory` rebuilds the content/timestamp memory.
  - `job_has_error` rewrites the markers `srun: error` and `Error` to upper case.
  - One `poll_jobs` call cancels, resubmits and deregisters each dead job.
- **Scheduler snapshot** (`monitor.dfy`):
  - `SlurmMonitor` is a cooldown-gated cache of the parsed `squeue` table.
  - The fixed-width parser of `get_squeue_data` finds the column starts in the header and
    slices every row.
  - `line_to_list` splits on runs of two or more spaces.
  - The lookups `job_name_to_id` and `get_job_info`.
- **Held-job releaser** (`release_jobs.dfy`): one pass of `main`. It counts running jobs
  and releases the first held jobs the quota allows.
- **Command builder** (`submitter.dfy`): the `sbatch` command line of `submit_job`.

Shared modules:
- `pystr.dfy` defines the Python string built-ins the code relies on:
  - `in`, `replace`, `strip`, `split()`, `split("\n")`, `splitlines()`, `find`, slicing;
  - `" ".join(s.split())`, `os.path.dirname`, `int()`;
  - each comes with the lemmas the rest of the model uses.
- `effects.dfy` defines `Action`, the commands and file changes that are returned instead
  of performed.
- `wrappers.dfy` defines `Option` and `Result`.

How the outside world becomes plain values:
- The scheduler is replaced by the text `squeue` would print.
- The clock is replaced by an integer `now`.
- The filesystem is replaced by maps and listings.
- An exception the code raises on purpose is modelled as an `Err` result.

## Model

| member | source | states |
|---|---|---|
| KillStuckJobs.AfterObservation | slurm_utils/kill_stuck_jobs.py:55-61 | the entry of the observed job holds the new contents, every other entry is kept, and the keys grow by that job only |
| KillStuckJobs.KeepListed | slurm_utils/kill_stuck_jobs.py:73-77 | the purged map holds exactly the old entries whose id is listed, values unchanged |
| KillStuckJobs.ChangeRestartsClock | slurm_utils/kill_stuck_jobs.py:55-64 | a new or changed log is not stale, and after it is recorded it becomes stale exactly when more than `stale_time` has passed since `now` |
| KillStuckJobs.StaleStaysStale | slurm_utils/kill_stuck_jobs.py:58-64 | a stale log with the same contents leaves the map unchanged and stays stale at every later time |
| KillStuckJobs.ErrorMonitor.constructor | slurm_utils/kill_stuck_jobs.py:38-40 | the monitor starts with the given stale time and an empty map |
| KillStuckJobs.ErrorMonitor.IsStale | slurm_utils/kill_stuck_jobs.py:42-64 | an untracked job: false and `(now, contents)` recorded; changed contents: false and the entry reset; unchanged contents: true iff `now - last_time > stale_time`, map untouched |
| KillStuckJobs.ErrorMonitor.PurgeInactive | slurm_utils/kill_stuck_jobs.py:66-77 | the field becomes the old map restricted to the listed ids |
| KillStuckJobs.FirstLineContaining | slurm_utils/kill_stuck_jobs.py:111-114 | returns nothing iff no line contains the marker, and otherwise the first line that does |
| KillStuckJobs.GetErrorLine | slurm_utils/kill_stuck_jobs.py:110-114 | `_get_error_line`: the first `splitlines()` line holding `Error`, or the `ValueError` as an `Err`; `GetErrorLineSucceeds` states when each happens |
| KillStuckJobs.GetErrorLineSucceeds | slurm_utils/kill_stuck_jobs.py:110-114 | `_get_error_line` raises iff the contents hold no `Error`, so never under the guard of line 139; the line it returns holds the marker |
| KillStuckJobs.MarkHandledProperties | slurm_utils/kill_stuck_jobs.py:145 | `replace("Error", "ERROR")` keeps the length, leaves no `Error`, and a second rewrite changes nothing |
| KillStuckJobs.MatchingExact | slurm_utils/kill_stuck_jobs.py:101-102 | the glob lists exactly the files of the listing that match `*<ext>` in the submit directory |
| KillStuckJobs.LogOf | slurm_utils/kill_stuck_jobs.py:97-107 | `_get_log_file`: the only `.err` file, else the only `.out` file, else the empty file; `LogOfChoice` states the choice |
| KillStuckJobs.LogOfChoice | slurm_utils/kill_stuck_jobs.py:97-107 | the log is the only `.err` file, else the only `.out` file, else `("", "")` |
| KillStuckJobs.WithContentsAt | slurm_utils/kill_stuck_jobs.py:145-147 | overwriting the log changes the contents at its path and nothing else |
| KillStuckJobs.InsertDescending | slurm_utils/kill_stuck_jobs.py:121 | inserting into a descending list keeps it descending and adds exactly one element |
| KillStuckJobs.SortByIdDescending | slurm_utils/kill_stuck_jobs.py:121 | the result is a permutation of the registrations, ordered by job id from highest to lowest |
| KillStuckJobs.SortedStrictly | slurm_utils/kill_stuck_jobs.py:116-122 | with one registration per job id, the ids strictly decrease |
| KillStuckJobs.JobActions | slurm_utils/kill_stuck_jobs.py:139-198 | the actions of one loop body: classification, resubmission, then clean-up; `JobActionsFacts` states them |
| KillStuckJobs.JobActionsFacts | slurm_utils/kill_stuck_jobs.py:139-198 | for one registration: `sbatch` iff errored or stuck; `scancel` only of this job, iff errored or stuck and still queued; registration removed iff stuck or expired |
| KillStuckJobs.Step | slurm_utils/kill_stuck_jobs.py:132-198 | one loop body appends its job's actions; an errored job never consults `is_stale`, and a clean one writes no file |
| KillStuckJobs.Steps | slurm_utils/kill_stuck_jobs.py:132-198 | the loop only appends actions; earlier ones are never withdrawn |
| KillStuckJobs.StepsPrefix | slurm_utils/kill_stuck_jobs.py:132-198 | the actions issued for the first `j` registrations are exactly the start of the tick's actions |
| KillStuckJobs.StepCancelsOnlyQueued | slurm_utils/kill_stuck_jobs.py:168-169 | a loop body cancels only a job that is in the live table |
| KillStuckJobs.CancelsOnlyQueuedJobs | slurm_utils/kill_stuck_jobs.py:132-169 | a whole tick issues `scancel` only for job ids in the live table |
| KillStuckJobs.EveryFlaggedJobResubmitted | slurm_utils/kill_stuck_jobs.py:164-174 | every registration found errored or stuck at its turn gets its `sbatch` in the tick's actions |
| KillStuckJobs.ParseIds | slurm_utils/kill_stuck_jobs.py:127 | the list comprehension of `int()` fails iff some JOBID is not an integer, and otherwise parses each one in order |
| KillStuckJobs.StuckJobKiller.constructor | slurm_utils/kill_stuck_jobs.py:81-88 | a fresh monitor with a 300-second cooldown and no snapshot, an empty error monitor with the 30-minute stale time, and the first-time flag set |
| KillStuckJobs.StuckJobKiller.HandleRegistration | slurm_utils/kill_stuck_jobs.py:132-198 | the loop body leaves the error monitor, the files, the removed set and the actions exactly as `Step` says |
| KillStuckJobs.StuckJobKiller.RunTick | slurm_utils/kill_stuck_jobs.py:132-198 | the loop over the sorted registrations ends in the state `Steps` gives, and the error monitor holds its entries |
| KillStuckJobs.StuckJobKiller.Poll | slurm_utils/kill_stuck_jobs.py:124-201 | refreshes as `refresh` does; fails without touching the error monitor if a JOBID is not an integer; otherwise purges inactive entries, runs the loop over the registrations sorted by descending id, and clears the first-time flag |
| ResubmitStuckJobs.UpdateMemory | slurm_utils/resubmit_stuck_jobs.py:62-92 | the new memory has exactly the registered ids as keys; a new id or changed output gets `(content, now)`, and an unchanged one keeps its entry |
| ResubmitStuckJobs.UpdatedMemory | slurm_utils/resubmit_stuck_jobs.py:62-92 | the memory `update_memory` returns: one entry per registered id, kept when the output is unchanged and `(content, now)` otherwise; `UpdateMemory`, `StalledAfterUpdate` and `UpdateIsStable` state its properties |
| ResubmitStuckJobs.Stalled | slurm_utils/resubmit_stuck_jobs.py:58-59 | `job_has_stalled`: more than `STALE_TIME` (1800 s) since the entry's last change; `StalledAfterUpdate` states when it holds after an update |
| ResubmitStuckJobs.StalledAfterUpdate | slurm_utils/resubmit_stuck_jobs.py:58-59 | after the update a job has stalled iff it was remembered with the same output and that entry was already more than 1800 s old |
| ResubmitStuckJobs.FreshMemoryNeverStalls | slurm_utils/resubmit_stuck_jobs.py:173-176 | from the empty memory the main loop always passes, no registered job has stalled |
| ResubmitStuckJobs.UpdateIsStable | slurm_utils/resubmit_stuck_jobs.py:79-91 | updating again with unchanged outputs, at any later time, changes nothing |
| ResubmitStuckJobs.UpperMarkers | slurm_utils/resubmit_stuck_jobs.py:48 | `.upper()` of the markers is `SRUN: ERROR` and `ERROR` |
| ResubmitStuckJobs.Handled | slurm_utils/resubmit_stuck_jobs.py:44-48 | the output after each marker found is replaced by its upper case, in marker order; `HandledBoth` and `HandledProperties` state its properties |
| ResubmitStuckJobs.HandledBoth | slurm_utils/resubmit_stuck_jobs.py:44-48 | the rewrite is the two `replace` calls in marker order, and a marker is seen iff the original contains `srun: error` or `Error` |
| ResubmitStuckJobs.HandledProperties | slurm_utils/resubmit_stuck_jobs.py:44-48 | the rewritten output keeps its length, holds neither marker, is not seen as errored again, and a second rewrite changes nothing |
| ResubmitStuckJobs.WritesWhenSeen | slurm_utils/resubmit_stuck_jobs.py:44-53 | a marker found is followed by a write of the output file |
| ResubmitStuckJobs.NoMarkerNoWrite | slurm_utils/resubmit_stuck_jobs.py:44-55 | without a marker nothing is written and the content is unchanged |
| ResubmitStuckJobs.JobHasError | slurm_utils/resubmit_stuck_jobs.py:40-55 | returns true iff the output contains `srun: error` or `Error`; then the output file holds the rewritten content, and otherwise no file changes |
| ResubmitStuckJobs.JobStep | slurm_utils/resubmit_stuck_jobs.py:122-147 | one loop body only appends actions; `JobStepFacts` states which |
| ResubmitStuckJobs.JobSteps | slurm_utils/resubmit_stuck_jobs.py:121-147 | the loop only appends actions, and once an exception has left it nothing more happens |
| ResubmitStuckJobs.WritesOnlyRewrite | slurm_utils/resubmit_stuck_jobs.py:50-53 | `job_has_error` issues nothing but writes of the job's output file |
| ResubmitStuckJobs.JobStepFacts | slurm_utils/resubmit_stuck_jobs.py:122-147 | per job: writes iff a marker is seen, only with a parsable registration, leaving no marker; a dead job with a parsable registration gets `scancel`, then `sbatch` in the script's directory, then loses that registration and no other; a dead job whose registration does not parse ends the call with an uncaught `JSONDecodeError`, exactly then and before any `scancel`; otherwise only the writes |
| ResubmitStuckJobs.FirstTickOnlyRewrites | slurm_utils/resubmit_stuck_jobs.py:123-131 | with `first` set and nothing stalled, a call only rewrites output files |
| ResubmitStuckJobs.MainLoopFirstTick | slurm_utils/resubmit_stuck_jobs.py:173-178 | the first call of the main loop only rewrites output files: it cancels, resubmits and deregisters nothing |
| ResubmitStuckJobs.NoCrashWithoutStall | slurm_utils/resubmit_stuck_jobs.py:121-147 | a registration that does not parse reads as empty output and is never errored, so without stalled entries the loop never ends on the uncaught `JSONDecodeError` |
| ResubmitStuckJobs.MainLoopNeverCrashes | slurm_utils/resubmit_stuck_jobs.py:173-178 | since the main loop passes the empty memory, no call of `poll_jobs` ends on that exception |
| ResubmitStuckJobs.StaleUnparsableCrashes | slurm_utils/resubmit_stuck_jobs.py:133-147 | a caller memory that remembers a job's empty output from more than 1800 s ago, with a registration that does not parse, makes the call raise with no action issued |
| ResubmitStuckJobs.JobStepCancelsOnce | slurm_utils/resubmit_stuck_jobs.py:133-145 | a loop body cancels only a job whose registration it then removes, so it never cancels one cancelled before |
| ResubmitStuckJobs.CancelsEachJobOnce | slurm_utils/resubmit_stuck_jobs.py:121-145 | even with an id listed twice, one call cancels each job at most once |
| ResubmitStuckJobs.PollJobs | slurm_utils/resubmit_stuck_jobs.py:112-147 | the loop over the listing ends in the state `JobSteps` gives, over the locally updated memory, including whether it raised |
| Monitor.StartsFrom | slurm_utils/monitor.py:108-111 | one position per column name, each `-1` or an occurrence of that name |
| Monitor.ColumnStarts | slurm_utils/monitor.py:108-114 | six positions, the last one the header's length |
| Monitor.StartsFromIncrease | slurm_utils/monitor.py:108-111 | when every name is found, each search starts after the previous hit, so the positions strictly increase |
| Monitor.ColumnStartsIncrease | slurm_utils/monitor.py:108-114 | with all five names in the header, the column starts strictly increase and the last column ends at the header's length |
| Monitor.Cells | slurm_utils/monitor.py:120-124 | one cell per column |
| Monitor.OutputLines | slurm_utils/monitor.py:100 | the stripped output has at least one line, the header |
| Monitor.ParseSqueue | slurm_utils/monitor.py:100-125 | one row per line after the header, every field stripped; an output without a newline gives no rows |
| Monitor.FindStarts | slurm_utils/monitor.py:104-111 | the column-start loop computes `StartsFrom` |
| Monitor.SliceCells | slurm_utils/monitor.py:119-124 | the inner loop computes the stripped cells |
| Monitor.RowsOf | slurm_utils/monitor.py:117-125 | one row per line of the body |
| Monitor.SliceRows | slurm_utils/monitor.py:117-125 | the outer loop computes `RowsOf` |
| Monitor.GetSqueueData | slurm_utils/monitor.py:99-125 | the parser computes `ParseSqueue` |
| Monitor.LineToList | slurm_utils/monitor.py:16-27 | raises iff the line ends in a space with no space before it; otherwise returns `Fields` |
| Monitor.Fields | slurm_utils/monitor.py:16-27 | what `line_to_list` returns when it does not raise: isolated spaces kept inside fields, runs of two or more spaces separating; `FieldsShape` and `FieldsRoundTrip` state its properties |
| Monitor.TrailingSpaceRaises | slurm_utils/monitor.py:21-23 | a field followed by one space raises, while `Fields` treats that space as isolated |
| Monitor.FieldsShape | slurm_utils/monitor.py:16-27 | no element is empty, and no element holds two spaces in a row |
| Monitor.FieldsRoundTrip | slurm_utils/monitor.py:16-27 | fields with isolated inner spaces, joined by runs of two or more spaces, come back unchanged, and the line does not raise |
| Monitor.CountName | slurm_utils/monitor.py:58 | `count` is at most the number of rows, and zero iff no row has the name |
| Monitor.FirstWithName | slurm_utils/monitor.py:60 | the index of the first row with the name, or the number of rows |
| Monitor.FirstWithId | slurm_utils/monitor.py:73-74 | the index of the first row with the JOBID, or the number of rows |
| Monitor.CountOneUnique | slurm_utils/monitor.py:58-61 | a name counted once belongs to exactly one row |
| Monitor.CountTwo | slurm_utils/monitor.py:62-65 | two rows with the same name are counted at least twice |
| Monitor.CountOnlyOne | slurm_utils/monitor.py:58-59 | a name held by one row only is counted once |
| Monitor.SlurmMonitor.constructor | slurm_utils/monitor.py:31-35 | `last_peek` is 0, there is no snapshot, and the cooldown is the one given |
| Monitor.SlurmMonitor.Refresh | slurm_utils/monitor.py:37-48 | refreshes iff forced or more than the cooldown has passed; then `last_peek` is `now` and the snapshot is the parsed output, and otherwise nothing changes |
| Monitor.SlurmMonitor.GetAllJobNames | slurm_utils/monitor.py:50-51 | the NAME column in table order |
| Monitor.SlurmMonitor.GetAllJobIds | slurm_utils/monitor.py:53-54 | the JOBID column in table order |
| Monitor.SlurmMonitor.JobNameToId | slurm_utils/monitor.py:56-66 | an id iff exactly one row has the name, and then that row's JOBID |
| Monitor.SlurmMonitor.GetJobInfo | slurm_utils/monitor.py:68-74 | `None` iff looked up by name and the name does not resolve; raises iff no row has the JOBID; otherwise the first row with that JOBID |
| Monitor.JobNameToIdExact | slurm_utils/monitor.py:56-66 | with row `i` named `name`, a match is returned iff no other row has that name, and it is row `i`'s JOBID |
| ReleaseJobs.CountRunning | release_jobs.py:19-24 | the number of running rows is at most the number of rows |
| ReleaseJobs.HeldIds | release_jobs.py:32-34 | no more held ids than rows |
| ReleaseJobs.Releases | release_jobs.py:41-42 | one release per selected id |
| ReleaseJobs.CountsOfConcat | release_jobs.py:19-34 | both counts split over a concatenation of tables, so the held ids keep table order |
| ReleaseJobs.HeldIdsExact | release_jobs.py:32-34 | an id is held iff some row with that JOBID has reason `(JobHeldUser)` |
| ReleaseJobs.Selected | release_jobs.py:25-41 | `jobids[:num_to_submit]`, empty when the quota is not positive; `SelectionFacts` states its properties |
| ReleaseJobs.SelectionFacts | release_jobs.py:25-42 | the selection is empty for a quota of at most 0, and otherwise the first min(quota, held) held ids; every selected id is held, and at most max(0, quota) are selected |
| ReleaseJobs.StartMonitor | release_jobs.py:8-9 | a fresh monitor with a 120-second cooldown and no snapshot |
| ReleaseJobs.ReleaseIteration | release_jobs.py:12-42 | nothing is released unless the monitor refreshes; then the selected held jobs are released, in table order |
| ReleaseJobs.ReleaseHeld | release_jobs.py:18-42 | on a fresh table, the releases are exactly those of the selected held ids, and none when the running jobs already meet `max_jobs` |
| ReleaseJobs.ReleaseAll | release_jobs.py:41-42 | one `scontrol release` per chosen id, in order |
| Submitter.PrefixKeyInjective | slurm_utils/submitter.py:5 | different keys get different prefixed keys, so the comprehension merges no entries |
| Submitter.AddUnderscoreToKeys | slurm_utils/submitter.py:4-5 | every key with its dash prefix, in order, values unchanged; `AddUnderscoreFacts` states its properties |
| Submitter.AddUnderscoreFacts | slurm_utils/submitter.py:4-5 | each key is replaced by its prefixed form (`--` for keys longer than two characters, `-` otherwise) in place, values unchanged; the prefixed key looks up the original value, and distinct keys stay distinct |
| Submitter.PutFacts | slurm_utils/submitter.py:14 | `d[k] = v` maps `k` to `v`, keeps every other value and every existing key's position, and adds at most one entry, at the end |
| Submitter.UpdateFacts | slurm_utils/submitter.py:14 | after `update`, the keys of the argument take its values, the other keys keep theirs, and existing keys keep their positions |
| Submitter.MergedFacts | slurm_utils/submitter.py:9-14 | a keyword argument overrides the other argument with the same key; the other arguments keep their order first; no key appears twice |
| Submitter.ArgsWords | slurm_utils/submitter.py:13-20 | the words of `args` are the export segment's, then the options' |
| Submitter.RawCommandWords | slurm_utils/submitter.py:21 | normalising `sbatch <args> <job_path>` gives `sbatch`, then the words of `args`, then those of `job_path` |
| Submitter.CommandWords | slurm_utils/submitter.py:21 | the words of the command are `sbatch`, then the words of `args`, then the words of `job_path` |
| Submitter.CommandNormalized | slurm_utils/submitter.py:21 | the command starts with `sbatch`, has no leading, trailing or doubled spaces, and is its own normal form |
| Submitter.ExportWords | slurm_utils/submitter.py:15-17 | no export segment for absent or empty `env_vars`; otherwise one that starts with the word `--export`, and whose words, for keys and values free of whitespace, are exactly `--export` and `ALL,k1=v1,...,kn=vn` in insertion order |
| Submitter.PlainExportWords | slurm_utils/submitter.py:15-17 | for a non-empty `env_vars` whose keys and values hold no whitespace, the export words are `--export` and `ALL,k1=v1,...,kn=vn` in insertion order |
| Submitter.OptionWords | slurm_utils/submitter.py:18-20 | with keys and values free of whitespace, the option words are exactly `k=v`, in merged order |
| Submitter.SubmitCommand | slurm_utils/submitter.py:8-21 | the command string `submit_job` runs; `CommandWords`, `CommandWordList` and `CommandNormalized` state its properties |
| Submitter.CommandWordList | slurm_utils/submitter.py:8-21 | for arguments whose keys and values hold no whitespace, the command's words are `sbatch`, then `--export` and `ALL,k1=v1,...` when `env_vars` is non-empty, then each merged option as `k=v` in merged order, then the words of `job_path` |
| PyStr.ContainsByLines | slurm_utils/kill_stuck_jobs.py:111-112 | a text contains a marker without line breaks iff one of its `splitlines()` lines does |
| PyStr.ReplaceAll | slurm_utils/kill_stuck_jobs.py:145 | `replace`, left to right and non-overlapping; the `ReplaceAll` lemmas state its properties |
| PyStr.ReplaceAllLength | slurm_utils/kill_stuck_jobs.py:145 | replacing by a string of the same length keeps the length |
| PyStr.ReplaceAllAbsent | slurm_utils/resubmit_stuck_jobs.py:45-48 | replacing an absent pattern changes nothing |
| PyStr.ReplaceAllRemoves | slurm_utils/kill_stuck_jobs.py:145 | after replacing a pattern by a different one of the same length that cannot overlap it, the pattern is gone |
| PyStr.ReplaceAllIdempotent | slurm_utils/kill_stuck_jobs.py:145 | such a replacement done twice equals it done once |
| PyStr.ReplaceAllIntroducesNothing | slurm_utils/resubmit_stuck_jobs.py:44-48 | a replacement sharing no character with `t` does not create an occurrence of `t` |
| PyStr.Strip | slurm_utils/monitor.py:123 | `strip()` leaves no whitespace at either end |
| PyStr.StripIsSlice | slurm_utils/monitor.py:123 | `strip()` is the slice `s[i:j]` with only whitespace before `i` and from `j` on, and it neither starts nor ends with whitespace, which determines it |
| PyStr.SplitJoinRoundTrip | slurm_utils/submitter.py:21 | splitting a separator-joined list of non-empty words gives the words back |
| PyStr.NormalizeKeepsWords | slurm_utils/submitter.py:21 | `" ".join(s.split())` keeps the words and is idempotent |
| PyStr.WordsAtSpace | slurm_utils/submitter.py:21 | the words of `a + " " + b` are the words of `a`, then those of `b` |
| PyStr.JoinOfWordsIsNormalized | slurm_utils/submitter.py:21 | joining words by one space leaves only single spaces between non-space characters |
| PyStr.NormalizeIsNormalized | slurm_utils/submitter.py:21 | the normal form has no leading, trailing or repeated whitespace |
| PyStr.SplitOn | slurm_utils/monitor.py:100 | `split("\n")` returns at least one piece, and none contains a newline |
| PyStr.SplitOnJoin | slurm_utils/monitor.py:100 | joining the pieces of `split("\n")` with newlines gives the string back |
| PyStr.Find | slurm_utils/monitor.py:109 | `find` returns the lowest occurrence at or after `start`, or -1 iff there is none |
| PyStr.SliceBound | slurm_utils/monitor.py:123 | a slice bound inside the string is kept, a negative one counts from the end, and one beyond either end is clamped to it |
| PyStr.DirName | slurm_utils/resubmit_stuck_jobs.py:140 | `dirname` is empty for a path without `/`; otherwise it is the path up to its last `/` with only slashes dropped from the end, ending in a non-slash unless that head is made of slashes, in which case it is kept whole |
| PyStr.ParseIntRoundTrip | slurm_utils/kill_stuck_jobs.py:127 | `int()` reads back the decimal form of every natural number |
| PyStr.ParseInt | slurm_utils/kill_stuck_jobs.py:127 | `int()` of a string: an optional sign and digits, single underscores allowed between digits, surrounding whitespace stripped, else `None` for the `ValueError`; `ParseIntRoundTrip` states the round trip |

## Left out

- Running commands is left out. `squeue`, `scancel`, `sbatch`, `scontrol release` and `check_call` are not executed: `squeue` is replaced by its output text, and the others become returned `Action` values. A `check_call` that fails and aborts a kill tick is not modelled.
- Printed messages and the appended notification file are left out (slurm_utils/kill_stuck_jobs.py:176-191). So are `silent`, `silence_prints` and `SlurmMonitor.print`.
- The `while True` loops and `time.sleep` calls are left out; one tick is modelled at a time.
- `time.time()` becomes one integer `now` per tick, so the float timestamps become integers and the tick reads a single time.
- JSON registrations, `glob` and `os.listdir` become parameters:
  - a registration is given with its parsed fields;
  - listings are sequences in listing order;
  - the filename-to-id parsing is not modelled.
- KillStuckJobs.GlobMatch: covers only `*<ext>` directly inside the submit directory, skipping hidden files. Glob special characters in the directory name are not modelled.
- KillStuckJobs.SortByIdDescending: the order among registrations with the same job id is not stated.
- KillStuckJobs.StuckJobKiller.Poll: requires a snapshot, or a refresh that will take one. Reading the table before the first snapshot raises in Python, and this is not modelled.
- Monitor.SlurmMonitor.GetAllJobIds, Monitor.SlurmMonitor.GetAllJobNames, Monitor.SlurmMonitor.JobNameToId, Monitor.SlurmMonitor.GetJobInfo: the same, they require a snapshot.
- The pandas DataFrame becomes a sequence of five-field rows, and JOBIDs are compared as text.
- `get_job_info` returns the row itself rather than a dict.
- ResubmitStuckJobs.PollJobs:
  - one listing of ids serves both the registration glob and `os.listdir`, so the `KeyError` of a listed file with no memory entry is not modelled;
  - the early return on an unreadable registration directory is not modelled;
  - an unreadable registration is an id missing from `regs`, and one that is not valid JSON is `Unparsable`;
  - a registration that parses but lacks its `output_file` or `sbatch_file` key raises `KeyError`, which nothing catches; this is not modelled.
- `register` and `register_job` only dump JSON or environment variables to disk and are left out, as are the `argparse` entry points and `setup.py`.
- PyStr.ParseInt: accepts ASCII digits, with single underscores between digits, an optional sign and surrounding whitespace. Python's `int()` also accepts other Unicode digits, which are not modelled.
- PyStr.Upper: maps only ASCII letters. This covers the two markers.
- Monitor.Fields: the `DUMMY_VALUE` placeholder of `line_to_list` is a separate value. The model therefore does not capture a line that already contains the placeholder text.
- Submitter.SubmitCommand: `check_call` and the printing are left out; a Python dict is modelled as a sequence of key/value pairs in insertion order.

Where the documented design and the code disagree, the model follows the code:

- A refresh replaces the snapshot with whatever the output parses to. The previous snapshot is not kept when the query fails.
- In the killer, `_first_time` only changes the wording of the message; `scancel` and `sbatch` run on the first tick too. In the resubmitter, `first` does gate errored jobs.
- `subprocess.run` does not raise when `sbatch` fails, so the resubmitter removes the registration anyway.
- An unreadable log reads as empty contents and counts as an observation.
- `poll_jobs` rebinds its memory argument locally, so the caller's memory stays empty and stall detection never fires. `ResubmitStuckJobs.MainLoopFirstTick` states the consequence.

## Findings

| source | as written | input that shows it | evidently intended | confidence | as-written member | corrected member |
|---|---|---|---|---|---|---|
| slurm_utils/monitor.py:22 | the look-ahead is guarded by `idx < len(line)`, which always holds inside the loop | any line ending in a field and one space, such as `"R "`: `line[idx + 1]` raises `IndexError` | `idx < len(line) - 1`, so a trailing isolated space is treated like any other | high, not executed | Monitor.TrailingSpaceRaises | Monitor.FieldsShape |
