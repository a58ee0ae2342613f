/**
 * `kill_stuck_jobs`: every tick, each registered job is checked for an error marker in
 * its log or for a log that has stopped changing; such a job is cancelled if it is still
 * in the queue and resubmitted. The registration files, the submit directories' logs,
 * the queue and the clock are inputs; the commands and file changes are returned.
 */
module KillStuckJobs {
  import opened Wrappers
  import opened PyStr
  import opened Effects
  import opened Monitor

  /** A log unchanged for more than this many seconds marks its job as stuck. */
  const DefaultStaleTime: int := 60 * 30
  /** The queue cooldown of the killer's monitor. */
  const PollCooldown: int := 60 * 5
  /** Registrations of finished jobs older than 150 hours are removed. */
  const RegistrationMaxAge: int := 60 * 60 * 150
  const ErrorMarker: string := "Error"
  const HandledMarker: string := "ERROR"
  /** The script resubmitted from the job's submit directory. */
  const TrainScript: string := "train.sh"

  // ---------------------------------------------------------------------------------
  // `ErrorMonitor`: when each job's log was last seen changing
  // ---------------------------------------------------------------------------------

  /** When a log was last seen with new contents, and those contents. */
  datatype Entry = Entry(lastTime: int, lastContents: string)

  /** `is_stale`'s answer: the log is tracked, unchanged, and older than `staleTime`. */
  predicate StaleVerdict(entries: map<int, Entry>, jobId: int, contents: string, now: int, staleTime: int) {
    jobId in entries && entries[jobId].lastContents == contents && now - entries[jobId].lastTime > staleTime
  }

  /** `is_stale`'s update: new or changed contents are recorded with the time they were seen. */
  function AfterObservation(entries: map<int, Entry>, jobId: int, contents: string, now: int): (r: map<int, Entry>)
    ensures r.Keys == entries.Keys + {jobId}
    ensures forall k :: k in entries && k != jobId ==> r[k] == entries[k]
    ensures r[jobId].lastContents == contents
  {
    if jobId in entries && entries[jobId].lastContents == contents then entries
    else entries[jobId := Entry(now, contents)]
  }

  /** `purge_inactive`: only the entries of the listed jobs remain, unchanged. */
  function KeepListed(entries: map<int, Entry>, jobIds: seq<int>): (r: map<int, Entry>)
    ensures r.Keys == entries.Keys * (set k | k in jobIds)
    ensures forall k :: k in r ==> r[k] == entries[k]
  {
    map k | k in entries && k in jobIds :: entries[k]
  }

  /** A log seen with new contents is not stale again until more than `staleTime` has passed. */
  lemma ChangeRestartsClock(entries: map<int, Entry>, jobId: int, contents: string, now: int, staleTime: int, later: int)
    requires jobId !in entries || entries[jobId].lastContents != contents
    ensures !StaleVerdict(entries, jobId, contents, now, staleTime)
    ensures StaleVerdict(AfterObservation(entries, jobId, contents, now), jobId, contents, later, staleTime)
      <==> later - now > staleTime
  {
  }

  /** Once stale, a log with the same contents stays stale, and seeing it again changes nothing. */
  lemma StaleStaysStale(entries: map<int, Entry>, jobId: int, contents: string, now: int, staleTime: int, later: int)
    requires StaleVerdict(entries, jobId, contents, now, staleTime) && now <= later
    ensures AfterObservation(entries, jobId, contents, now) == entries
    ensures StaleVerdict(entries, jobId, contents, later, staleTime)
  {
  }

  class ErrorMonitor {
    const staleTime: int
    /** The `_error_contents` dictionary. */
    var errorContents: map<int, Entry>

    constructor (staleTime: int)
      ensures this.staleTime == staleTime && errorContents == map[]
    {
      this.staleTime := staleTime;
      errorContents := map[];
    }

    /** `is_stale(job_id, contents)` at time `now`. */
    method IsStale(jobId: int, contents: string, now: int) returns (stale: bool)
      modifies this
      ensures jobId !in old(errorContents) ==>
        !stale && errorContents == old(errorContents)[jobId := Entry(now, contents)]
      ensures jobId in old(errorContents) && old(errorContents)[jobId].lastContents != contents ==>
        !stale && errorContents == old(errorContents)[jobId := Entry(now, contents)]
      ensures jobId in old(errorContents) && old(errorContents)[jobId].lastContents == contents ==>
        (stale <==> now - old(errorContents)[jobId].lastTime > staleTime) && errorContents == old(errorContents)
      ensures stale == StaleVerdict(old(errorContents), jobId, contents, now, staleTime)
      ensures errorContents == AfterObservation(old(errorContents), jobId, contents, now)
    {
      if jobId !in errorContents {
        errorContents := errorContents[jobId := Entry(now, contents)];
        return false;
      }
      var last := errorContents[jobId];
      if last.lastContents != contents {
        errorContents := errorContents[jobId := Entry(now, contents)];
        return false;
      }
      stale := now - last.lastTime > staleTime;
    }

    /** `purge_inactive(job_ids)`. */
    method PurgeInactive(jobIds: seq<int>)
      modifies this
      ensures errorContents == KeepListed(old(errorContents), jobIds)
    {
      errorContents := map k | k in errorContents && k in jobIds :: errorContents[k];
    }
  }

  // ---------------------------------------------------------------------------------
  // `_get_error_line` and the marker rewrite
  // ---------------------------------------------------------------------------------

  /** `lines[i]` is the first of `lines` that contains `p`. */
  predicate IsFirstContaining(lines: seq<string>, p: string, i: int) {
    0 <= i < |lines| && Contains(lines[i], p) && forall j :: 0 <= j < i ==> !Contains(lines[j], p)
  }

  function FirstLineContaining(lines: seq<string>, p: string): (r: Option<string>)
    ensures r.None? <==> !SomeLineContains(lines, p)
    ensures r.Some? ==> exists i :: IsFirstContaining(lines, p, i) && lines[i] == r.value
    decreases |lines|
  {
    if lines == [] then None
    else if Contains(lines[0], p) then
      assert IsFirstContaining(lines, p, 0);
      Some(lines[0])
    else
      var r := FirstLineContaining(lines[1..], p);
      if r.Some? then
        var i :| IsFirstContaining(lines[1..], p, i) && lines[1..][i] == r.value;
        assert IsFirstContaining(lines, p, i + 1);
        r
      else
        assert forall i :: 1 <= i < |lines| ==> lines[i] == lines[1..][i - 1];
        r
  }

  /** `_get_error_line`: the first line that contains the marker; raises when there is none. */
  function GetErrorLine(contents: string): Result<string> {
    match FirstLineContaining(SplitLines(contents), ErrorMarker)
    case Some(line) => Ok(line)
    case None => Err("ValueError: No error line found in error file contents.")
  }

  /** `_get_error_line` raises exactly when the contents have no marker, so never under its guard. */
  lemma GetErrorLineSucceeds(contents: string)
    ensures GetErrorLine(contents).Ok? <==> Contains(contents, ErrorMarker)
    ensures GetErrorLine(contents).Ok? ==> Contains(GetErrorLine(contents).value, ErrorMarker)
  {
    ContainsByLines(contents, ErrorMarker);
  }

  /** The log after `replace("Error", "ERROR")`. */
  function MarkHandled(contents: string): string {
    ReplaceAll(contents, ErrorMarker, HandledMarker)
  }

  /** The rewrite keeps the length, leaves no marker, and a second rewrite changes nothing. */
  lemma MarkHandledProperties(contents: string)
    ensures |MarkHandled(contents)| == |contents|
    ensures !Contains(MarkHandled(contents), ErrorMarker)
    ensures MarkHandled(MarkHandled(contents)) == MarkHandled(contents)
  {
    ReplaceAllLength(contents, ErrorMarker, HandledMarker);
    ReplaceAllRemoves(contents, ErrorMarker, HandledMarker);
    ReplaceAllIdempotent(contents, ErrorMarker, HandledMarker);
  }

  // ---------------------------------------------------------------------------------
  // Finding a job's log: `_get_error_file_contents`
  // ---------------------------------------------------------------------------------

  /** A file of the filesystem listing, with its contents. */
  datatype File = File(path: string, contents: string)

  /** `os.path.join(dir, name)` for a relative `name`. */
  function JoinPath(dir: string, name: string): string {
    if dir == [] || dir[|dir| - 1] == '/' then dir + name else dir + "/" + name
  }

  predicate EndsWith(s: string, suffix: string) {
    |suffix| <= |s| && s[|s| - |suffix|..] == suffix
  }

  /** `path` matches the pattern `*<ext>` inside `dir`: a visible file directly inside `dir`. */
  predicate GlobMatch(path: string, dir: string, ext: string) {
    var prefix := JoinPath(dir, "");
    IsPrefix(prefix, path)
    && var name := path[|prefix|..];
    name != [] && name[0] != '.' && '/' !in name && EndsWith(name, ext)
  }

  /** The files that `glob` of `*<ext>` in `dir` lists, in listing order. */
  function Matching(files: seq<File>, dir: string, ext: string): seq<File>
    decreases |files|
  {
    if files == [] then []
    else (if GlobMatch(files[0].path, dir, ext) then [files[0]] else []) + Matching(files[1..], dir, ext)
  }

  /** The glob lists exactly the matching files of the listing. */
  lemma {:induction false} MatchingExact(files: seq<File>, dir: string, ext: string)
    ensures forall f :: f in Matching(files, dir, ext) <==> f in files && GlobMatch(f.path, dir, ext)
    decreases |files|
  {
    if files != [] {
      MatchingExact(files[1..], dir, ext);
      assert files == [files[0]] + files[1..];
    }
  }

  /** The log of a job: the only `.err` file of its directory, else the only `.out` file, else `("", "")`. */
  function LogOf(files: seq<File>, dir: string): File {
    var errs := Matching(files, dir, ".err");
    if |errs| == 1 then errs[0]
    else
      var outs := Matching(files, dir, ".out");
      if |outs| == 1 then outs[0] else File("", "")
  }

  /** A lone `.err` file is the log; otherwise a lone `.out` file; otherwise there is none. */
  lemma LogOfChoice(files: seq<File>, dir: string)
    ensures LogOf(files, dir) == File("", "") || LogOf(files, dir) in files
    ensures |Matching(files, dir, ".err")| == 1 ==> GlobMatch(LogOf(files, dir).path, dir, ".err")
    ensures |Matching(files, dir, ".err")| != 1 && |Matching(files, dir, ".out")| == 1 ==>
      GlobMatch(LogOf(files, dir).path, dir, ".out")
    ensures |Matching(files, dir, ".err")| != 1 && |Matching(files, dir, ".out")| != 1 ==>
      LogOf(files, dir) == File("", "")
  {
    MatchingExact(files, dir, ".err");
    MatchingExact(files, dir, ".out");
    var errs := Matching(files, dir, ".err");
    var outs := Matching(files, dir, ".out");
    if |errs| == 1 {
      assert errs[0] in errs;
    } else if |outs| == 1 {
      assert outs[0] in outs;
    }
  }

  /** The listing after overwriting the file at `path`. */
  function WithContents(files: seq<File>, path: string, contents: string): (r: seq<File>)
    ensures |r| == |files|
  {
    seq(|files|, i requires 0 <= i < |files| =>
      if files[i].path == path then File(path, contents) else files[i])
  }

  /** Overwriting changes the contents at `path` and nothing else. */
  lemma WithContentsAt(files: seq<File>, path: string, contents: string, i: nat)
    requires i < |files|
    ensures WithContents(files, path, contents)[i].path == files[i].path
    ensures WithContents(files, path, contents)[i].contents
      == if files[i].path == path then contents else files[i].contents
  {
  }

  // ---------------------------------------------------------------------------------
  // The order of the registrations
  // ---------------------------------------------------------------------------------

  /** A `.slurm_job` registration: its job id, its file, its submit directory and mtime. */
  datatype Registration = Registration(jobId: int, file: string, submitDir: string, mtime: int)

  /** Each id is at least the next one. */
  predicate Descending(regs: seq<Registration>) {
    forall i :: 0 <= i < |regs| - 1 ==> regs[i].jobId >= regs[i + 1].jobId
  }

  /** Places `reg` after every entry whose id is at least its own. */
  function InsertDescending(sorted: seq<Registration>, reg: Registration): (r: seq<Registration>)
    requires Descending(sorted)
    ensures Descending(r) && multiset(r) == multiset(sorted) + multiset{reg}
    ensures |r| == |sorted| + 1
    ensures r[0] == if sorted == [] || sorted[0].jobId < reg.jobId then reg else sorted[0]
    decreases |sorted|
  {
    if sorted == [] then [reg]
    else if sorted[0].jobId >= reg.jobId then
      assert sorted == [sorted[0]] + sorted[1..];
      var rest := InsertDescending(sorted[1..], reg);
      var r := [sorted[0]] + rest;
      assert forall i :: 1 <= i < |r| ==> r[i] == rest[i - 1];
      assert r[0].jobId >= r[1].jobId;
      assert multiset(r) == multiset{sorted[0]} + multiset(rest);
      r
    else
      [reg] + sorted
  }

  /** `sorted(registrations, key=lambda x: -x[0])`: by job id, highest first. */
  function SortByIdDescending(regs: seq<Registration>): (r: seq<Registration>)
    ensures Descending(r) && multiset(r) == multiset(regs)
    decreases |regs|
  {
    if regs == [] then []
    else
      var init := regs[..|regs| - 1];
      assert regs == init + [regs[|regs| - 1]];
      InsertDescending(SortByIdDescending(init), regs[|regs| - 1])
  }

  /** With distinct job ids, as when each id has one registration file, the order is strict. */
  lemma SortedStrictly(regs: seq<Registration>)
    requires forall i, j :: 0 <= i < j < |regs| ==> regs[i].jobId != regs[j].jobId
    ensures forall i :: 0 <= i < |SortByIdDescending(regs)| - 1 ==>
      SortByIdDescending(regs)[i].jobId > SortByIdDescending(regs)[i + 1].jobId
  {
    var s := SortByIdDescending(regs);
    forall i | 0 <= i < |s| - 1 ensures s[i].jobId > s[i + 1].jobId {
      if s[i].jobId == s[i + 1].jobId {
        SameIdTwice(s, regs, i, i + 1);
      }
    }
  }

  /** Two entries with the same id in a permutation come from two entries of the original. */
  lemma SameIdTwice(s: seq<Registration>, regs: seq<Registration>, i: int, j: int)
    requires multiset(s) == multiset(regs) && 0 <= i < j < |s| && s[i].jobId == s[j].jobId
    ensures exists a, b :: 0 <= a < b < |regs| && regs[a].jobId == regs[b].jobId
  {
    assert s[i] in multiset(regs) && s[j] in multiset(regs);
    var a :| 0 <= a < |regs| && regs[a] == s[i];
    var b: int;
    if s[i] == s[j] {
      OccursTwice(s, i, j);
      b := OtherOccurrence(regs, a);
    } else {
      b :| 0 <= b < |regs| && regs[b] == s[j];
    }
    if a < b { assert regs[a].jobId == regs[b].jobId; } else { assert regs[b].jobId == regs[a].jobId; }
  }

  /** A value at two positions occurs at least twice. */
  lemma OccursTwice<T>(s: seq<T>, i: int, j: int)
    requires 0 <= i < j < |s| && s[i] == s[j]
    ensures multiset(s)[s[i]] >= 2
  {
    assert s == s[..j] + [s[j]] + s[j + 1..];
    assert s[i] in s[..j];
  }

  /** A value that occurs at least twice occurs at a position other than `a`. */
  lemma OtherOccurrence<T>(s: seq<T>, a: int) returns (b: int)
    requires 0 <= a < |s| && multiset(s)[s[a]] >= 2
    ensures 0 <= b < |s| && b != a && s[b] == s[a]
  {
    assert s == s[..a] + [s[a]] + s[a + 1..];
    assert multiset(s)[s[a]] == multiset(s[..a])[s[a]] + 1 + multiset(s[a + 1..])[s[a]];
    if s[a] in s[..a] {
      var k :| 0 <= k < a && s[..a][k] == s[a];
      b := k;
    } else {
      assert s[a] in s[a + 1..];
      var k :| 0 <= k < |s| - a - 1 && s[a + 1..][k] == s[a];
      b := a + 1 + k;
    }
  }

  // ---------------------------------------------------------------------------------
  // One tick of `StuckJobKiller.poll`
  // ---------------------------------------------------------------------------------

  /** The state the loop of `poll` threads through the registrations. */
  datatype Tick = Tick(entries: map<int, Entry>, files: seq<File>, removed: set<string>, actions: seq<Action>)

  /** The job's log holds the error marker. */
  predicate Errored(t: Tick, reg: Registration) {
    Contains(LogOf(t.files, reg.submitDir).contents, ErrorMarker)
  }

  /** The job's log is clean and has not changed for more than `staleTime`. */
  predicate Stuck(t: Tick, reg: Registration, now: int, staleTime: int) {
    !Errored(t, reg) && StaleVerdict(t.entries, reg.jobId, LogOf(t.files, reg.submitDir).contents, now, staleTime)
  }

  /** The job is no longer queued and its registration, still present, is older than the limit. */
  predicate Expired(t: Tick, reg: Registration, active: seq<int>, now: int, staleTime: int) {
    reg.jobId !in active && !Stuck(t, reg, now, staleTime) && reg.file !in t.removed
    && now - reg.mtime > RegistrationMaxAge
  }

  /** The log rewrite of an errored job, or the registration removal of a stuck one. */
  function ClassifyActions(t: Tick, reg: Registration, now: int, staleTime: int): seq<Action> {
    var log := LogOf(t.files, reg.submitDir);
    if Errored(t, reg) then [WriteFile(log.path, MarkHandled(log.contents))]
    else if Stuck(t, reg, now, staleTime) then [RemoveFile(reg.file)]
    else []
  }

  /** `scancel` if the job is queued, then `sbatch`, for an errored or stuck job. */
  function ResubmitActions(t: Tick, reg: Registration, active: seq<int>, now: int, staleTime: int): seq<Action> {
    if Errored(t, reg) || Stuck(t, reg, now, staleTime) then
      (if reg.jobId in active then [Cancel(reg.jobId)] else []) + [Submit(TrainScript, reg.submitDir)]
    else []
  }

  /** The removal of an expired registration. */
  function CleanupActions(t: Tick, reg: Registration, active: seq<int>, now: int, staleTime: int): seq<Action> {
    if Expired(t, reg, active, now, staleTime) then [RemoveFile(reg.file)] else []
  }

  /** The commands and file changes the loop body of `poll` issues for one registration. */
  function JobActions(t: Tick, reg: Registration, active: seq<int>, now: int, staleTime: int): seq<Action> {
    ClassifyActions(t, reg, now, staleTime) + ResubmitActions(t, reg, active, now, staleTime)
      + CleanupActions(t, reg, active, now, staleTime)
  }

  /**
   * For one registration: `sbatch` exactly when errored or stuck, `scancel` only of this job
   * and only when it is queued, and removal of the registration exactly when stuck or expired.
   */
  lemma JobActionsFacts(t: Tick, reg: Registration, active: seq<int>, now: int, staleTime: int)
    ensures var added := JobActions(t, reg, active, now, staleTime);
      && (Submit(TrainScript, reg.submitDir) in added <==> Errored(t, reg) || Stuck(t, reg, now, staleTime))
      && (forall a :: a in added && a.Cancel? ==> a.jobId == reg.jobId && reg.jobId in active)
      && (Cancel(reg.jobId) in added <==> (Errored(t, reg) || Stuck(t, reg, now, staleTime)) && reg.jobId in active)
      && (RemoveFile(reg.file) in added <==> Stuck(t, reg, now, staleTime) || Expired(t, reg, active, now, staleTime))
  {
    var classify := ClassifyActions(t, reg, now, staleTime);
    var resubmit := ResubmitActions(t, reg, active, now, staleTime);
    var cleanup := CleanupActions(t, reg, active, now, staleTime);
    assert forall a :: a in classify ==> a.WriteFile? || a == RemoveFile(reg.file);
    assert forall a :: a in cleanup ==> a == RemoveFile(reg.file);
    assert RemoveFile(reg.file) in classify <==> Stuck(t, reg, now, staleTime);
    assert RemoveFile(reg.file) in cleanup <==> Expired(t, reg, active, now, staleTime);
  }

  /** What the loop body of `poll` does for one registration. */
  function Step(t: Tick, reg: Registration, active: seq<int>, now: int, staleTime: int): (r: Tick)
    ensures r.actions == t.actions + JobActions(t, reg, active, now, staleTime)
    ensures Errored(t, reg) ==> r.entries == t.entries
    ensures !Errored(t, reg) ==> r.files == t.files
  {
    var log := LogOf(t.files, reg.submitDir);
    var errored := Errored(t, reg);
    Tick(
      if errored then t.entries else AfterObservation(t.entries, reg.jobId, log.contents, now),
      if errored then WithContents(t.files, log.path, MarkHandled(log.contents)) else t.files,
      if Stuck(t, reg, now, staleTime) || Expired(t, reg, active, now, staleTime) then t.removed + {reg.file}
      else t.removed,
      t.actions + JobActions(t, reg, active, now, staleTime))
  }

  /** The loop of `poll` over the registrations in the order given. */
  function Steps(t: Tick, regs: seq<Registration>, active: seq<int>, now: int, staleTime: int): (r: Tick)
    ensures |r.actions| >= |t.actions| && r.actions[..|t.actions|] == t.actions
    decreases |regs|
  {
    if regs == [] then t
    else
      var mid := Steps(t, regs[..|regs| - 1], active, now, staleTime);
      var r := Step(mid, regs[|regs| - 1], active, now, staleTime);
      var added := JobActions(mid, regs[|regs| - 1], active, now, staleTime);
      assert r.actions[|t.actions|..] == mid.actions[|t.actions|..] + added;
      r
  }

  /** Every `scancel` among `actions` targets a job that is in the queue. */
  predicate CancelsOnly(actions: seq<Action>, active: seq<int>) {
    forall i :: 0 <= i < |actions| && actions[i].Cancel? ==> actions[i].jobId in active
  }

  /** The loop body of `poll` cancels only a queued job. */
  lemma StepCancelsOnlyQueued(t: Tick, reg: Registration, active: seq<int>, now: int, staleTime: int)
    requires CancelsOnly(t.actions, active)
    ensures CancelsOnly(Step(t, reg, active, now, staleTime).actions, active)
  {
    var added := JobActions(t, reg, active, now, staleTime);
    var acts := Step(t, reg, active, now, staleTime).actions;
    JobActionsFacts(t, reg, active, now, staleTime);
    forall i | 0 <= i < |acts| && acts[i].Cancel? ensures acts[i].jobId in active {
      if i >= |t.actions| {
        assert acts[i] == added[i - |t.actions|];
      }
    }
  }

  /** A tick that starts without a `scancel` of an unqueued job issues none. */
  lemma {:induction false} CancelsOnlyQueuedJobs(t: Tick, regs: seq<Registration>, active: seq<int>, now: int, staleTime: int)
    requires CancelsOnly(t.actions, active)
    ensures CancelsOnly(Steps(t, regs, active, now, staleTime).actions, active)
    decreases |regs|
  {
    if regs != [] {
      var init := regs[..|regs| - 1];
      CancelsOnlyQueuedJobs(t, init, active, now, staleTime);
      StepCancelsOnlyQueued(Steps(t, init, active, now, staleTime), regs[|regs| - 1], active, now, staleTime);
    }
  }

  /** Every registration found errored or stuck at its turn gets its `sbatch`. */
  lemma EveryFlaggedJobResubmitted(t: Tick, regs: seq<Registration>, active: seq<int>, now: int, staleTime: int, i: nat)
    requires i < |regs|
    ensures var before := Steps(t, regs[..i], active, now, staleTime);
      Errored(before, regs[i]) || Stuck(before, regs[i], now, staleTime) ==>
        Submit(TrainScript, regs[i].submitDir) in Steps(t, regs, active, now, staleTime).actions
  {
    var before := Steps(t, regs[..i], active, now, staleTime);
    if Errored(before, regs[i]) || Stuck(before, regs[i], now, staleTime) {
      var upTo := Steps(t, regs[..i + 1], active, now, staleTime);
      assert regs[..i + 1][..i] == regs[..i] && regs[..i + 1][i] == regs[i];
      assert upTo == Step(before, regs[i], active, now, staleTime);
      JobActionsFacts(before, regs[i], active, now, staleTime);
      assert Submit(TrainScript, regs[i].submitDir) in upTo.actions;
      StepsPrefix(t, regs, active, now, staleTime, i + 1);
      var whole := Steps(t, regs, active, now, staleTime);
      assert whole.actions[..|upTo.actions|] == upTo.actions;
    }
  }

  /** The actions of the first `j` registrations begin the actions of all of them. */
  lemma {:induction false} StepsPrefix(t: Tick, regs: seq<Registration>, active: seq<int>, now: int, staleTime: int, j: nat)
    requires j <= |regs|
    ensures var part := Steps(t, regs[..j], active, now, staleTime).actions;
      var whole := Steps(t, regs, active, now, staleTime).actions;
      |part| <= |whole| && whole[..|part|] == part
    decreases |regs|
  {
    if j == |regs| {
      assert regs[..j] == regs;
    } else {
      var init := regs[..|regs| - 1];
      assert init[..j] == regs[..j];
      StepsPrefix(t, init, active, now, staleTime, j);
      var mid := Steps(t, init, active, now, staleTime);
      var whole := Steps(t, regs, active, now, staleTime);
      assert whole == Step(mid, regs[|regs| - 1], active, now, staleTime);
      assert whole.actions[..|mid.actions|] == mid.actions;
    }
  }

  /** Whether every JOBID of the table reads as an integer, and the integers. */
  function ParseIds(ids: seq<string>): (r: Option<seq<int>>)
    ensures r.None? <==> exists i :: 0 <= i < |ids| && ParseInt(ids[i]).None?
    ensures r.Some? ==> |r.value| == |ids| && forall i :: 0 <= i < |ids| ==> ParseInt(ids[i]) == Some(r.value[i])
    decreases |ids|
  {
    if ids == [] then Some([])
    else
      var head := ParseInt(ids[0]);
      var tail := ParseIds(ids[1..]);
      if head.None? then None
      else if tail.None? then
        var i :| 0 <= i < |ids[1..]| && ParseInt(ids[1..][i]).None?;
        assert ParseInt(ids[i + 1]).None?;
        None
      else
        assert forall i :: 1 <= i < |ids| ==> ids[i] == ids[1..][i - 1];
        Some([head.value] + tail.value)
  }

  class StuckJobKiller {
    const monitor: SlurmMonitor
    const errorMonitor: ErrorMonitor
    /** Only changes the wording of the messages; the actions do not depend on it. */
    var firstTime: bool

    constructor ()
      ensures fresh(monitor) && fresh(errorMonitor)
      ensures monitor.cooldownSeconds == PollCooldown && monitor.lastPeek == 0 && monitor.latestInfo == None
      ensures errorMonitor.staleTime == DefaultStaleTime && errorMonitor.errorContents == map[]
      ensures firstTime
    {
      monitor := new SlurmMonitor(PollCooldown);
      errorMonitor := new ErrorMonitor(DefaultStaleTime);
      firstTime := true;
    }

    /** The loop body of `poll()` for one registration. */
    method HandleRegistration(reg: Registration, active: seq<int>, now: int,
                              files: seq<File>, removed: set<string>, actions: seq<Action>)
      returns (files': seq<File>, removed': set<string>, actions': seq<Action>)
      modifies errorMonitor
      ensures Tick(errorMonitor.errorContents, files', removed', actions')
        == Step(Tick(old(errorMonitor.errorContents), files, removed, actions), reg, active, now, errorMonitor.staleTime)
    {
      ghost var before := Tick(errorMonitor.errorContents, files, removed, actions);
      ghost var staleTime := errorMonitor.staleTime;
      files', removed', actions' := files, removed, actions;
      var log := LogOf(files, reg.submitDir);
      var errorOccurred := true;
      if Contains(log.contents, ErrorMarker) {
        assert Errored(before, reg);
        var fixed := MarkHandled(log.contents);
        files' := WithContents(files, log.path, fixed);
        actions' := actions' + [WriteFile(log.path, fixed)];
        assert actions' == actions + ClassifyActions(before, reg, now, staleTime);
      } else {
        assert !Errored(before, reg);
        var stale := errorMonitor.IsStale(reg.jobId, log.contents, now);
        assert stale == Stuck(before, reg, now, staleTime);
        if stale {
          actions' := actions' + [RemoveFile(reg.file)];
          removed' := removed' + {reg.file};
        } else {
          errorOccurred := false;
        }
        assert actions' == actions + ClassifyActions(before, reg, now, staleTime);
      }
      assert errorOccurred == (Errored(before, reg) || Stuck(before, reg, now, staleTime));
      if errorOccurred {
        if reg.jobId in active {
          actions' := actions' + [Cancel(reg.jobId)];
        }
        actions' := actions' + [Submit(TrainScript, reg.submitDir)];
      }
      assert actions' == actions + ClassifyActions(before, reg, now, staleTime)
        + ResubmitActions(before, reg, active, now, staleTime);
      if reg.jobId !in active && reg.file !in removed' && now - reg.mtime > RegistrationMaxAge {
        actions' := actions' + [RemoveFile(reg.file)];
        removed' := removed' + {reg.file};
      }
      assert actions' == actions + JobActions(before, reg, active, now, staleTime);
    }

    /** The loop of `poll()` over the registrations, in the order given. */
    method RunTick(queue: seq<Registration>, active: seq<int>, now: int, files: seq<File>) returns (tick: Tick)
      modifies errorMonitor
      ensures tick == Steps(Tick(old(errorMonitor.errorContents), files, {}, []), queue, active, now, errorMonitor.staleTime)
      ensures errorMonitor.errorContents == tick.entries
    {
      ghost var start := Tick(errorMonitor.errorContents, files, {}, []);
      var current := files;
      var removed: set<string> := {};
      var actions: seq<Action> := [];
      for i := 0 to |queue|
        invariant Tick(errorMonitor.errorContents, current, removed, actions)
          == Steps(start, queue[..i], active, now, errorMonitor.staleTime)
      {
        var reg := queue[i];
        assert queue[..i + 1][..i] == queue[..i] && queue[..i + 1][i] == reg;
        current, removed, actions := HandleRegistration(reg, active, now, current, removed, actions);
      }
      assert queue[..|queue|] == queue;
      tick := Tick(errorMonitor.errorContents, current, removed, actions);
    }

    /**
     * One `poll()` at time `now`: `squeueOutput` is what `squeue` prints if the monitor
     * refreshes, `registrations` the `.slurm_job` files and `files` the submit directories'
     * contents. `Err` is the `int()` failure on a JOBID that is not an integer.
     */
    method Poll(now: int, squeueOutput: string, registrations: seq<Registration>, files: seq<File>)
      returns (r: Result<Tick>)
      requires monitor.latestInfo.Some? || now - monitor.lastPeek > monitor.cooldownSeconds
      modifies this, monitor, errorMonitor
      ensures now - old(monitor.lastPeek) > monitor.cooldownSeconds ==>
        monitor.lastPeek == now && monitor.latestInfo == Some(ParseSqueue(squeueOutput))
      ensures now - old(monitor.lastPeek) <= monitor.cooldownSeconds ==>
        monitor.lastPeek == old(monitor.lastPeek) && monitor.latestInfo == old(monitor.latestInfo)
      ensures monitor.latestInfo.Some?
      ensures ParseIds(monitor.GetAllJobIds()).None? ==>
        r.Err? && errorMonitor.errorContents == old(errorMonitor.errorContents) && firstTime == old(firstTime)
      ensures var active := ParseIds(monitor.GetAllJobIds());
        active.Some? ==>
          && r == Ok(Steps(Tick(KeepListed(old(errorMonitor.errorContents), active.value), files, {}, []),
                           SortByIdDescending(registrations), active.value, now, errorMonitor.staleTime))
          && errorMonitor.errorContents == r.value.entries
          && !firstTime
    {
      ghost var entries := errorMonitor.errorContents;
      var _ := monitor.Refresh(now, false, squeueOutput);
      assert errorMonitor.errorContents == entries;
      var ids := monitor.GetAllJobIds();
      var parsed := ParseIds(ids);
      if parsed.None? {
        return Err("ValueError: invalid literal for int()");
      }
      var active := parsed.value;
      ghost var info := monitor.latestInfo;
      errorMonitor.PurgeInactive(active);
      var tick := RunTick(SortByIdDescending(registrations), active, now, files);
      firstTime := false;
      assert monitor.latestInfo == info;
      assert ParseIds(monitor.GetAllJobIds()) == parsed;
      r := Ok(tick);
    }
  }
}
