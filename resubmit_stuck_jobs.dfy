/**
 * The memory-based resubmitter: one call of `poll_jobs`. The registration directory, the
 * output files and the clock are inputs; the commands and file changes come back as actions.
 */
module ResubmitStuckJobs {
  import opened PyStr
  import opened Effects

  /** A job whose output has not changed for more than this many seconds has stalled. */
  const StaleTime := 30 * 60

  const SrunMarker := "srun: error"
  const ErrorMarker := "Error"

  /** The markers `job_has_error` looks for, in the order it looks for them. */
  const Markers: seq<string> := [SrunMarker, ErrorMarker]

  /**
   * A job's registration file: the JSON record `register_job` writes, or `Unparsable`
   * for a file that exists but does not hold valid JSON.
   */
  datatype Registration = Registration(outputFile: string, sbatchFile: string) | Unparsable

  /** The job's registration can be read and parsed. */
  predicate Readable(regs: map<int, Registration>, jobId: int) {
    jobId in regs && regs[jobId].Registration?
  }

  /** What the memory holds for a job: the output last seen and when it last changed. */
  datatype Memo = Memo(content: string, lastModified: int)

  /** The output file named by the job's registration, or "" when it has none. */
  function OutputPath(regs: map<int, Registration>, jobId: int): string {
    if Readable(regs, jobId) then regs[jobId].outputFile else ""
  }

  /**
   * `get_current_output_file_contents`: the job's output, or "" when its registration
   * cannot be read (absent from `regs`) or parsed (`Unparsable`), or its output file
   * cannot be read (absent from `logs`).
   */
  function OutputOf(regs: map<int, Registration>, logs: map<string, string>, jobId: int): string {
    if Readable(regs, jobId) && regs[jobId].outputFile in logs then logs[regs[jobId].outputFile] else ""
  }

  // ---------------------------------------------------------------------------------
  // `update_memory` and `job_has_stalled`
  // ---------------------------------------------------------------------------------

  /** The entry `update_memory` builds for a job whose output now reads `content`. */
  function Remembered(memory: map<int, Memo>, content: string, now: int, jobId: int): Memo {
    if jobId in memory && memory[jobId].content == content then memory[jobId] else Memo(content, now)
  }

  /** The memory `update_memory` returns for the registered `ids`. */
  function UpdatedMemory(memory: map<int, Memo>, ids: seq<int>, regs: map<int, Registration>,
                         logs: map<string, string>, now: int): map<int, Memo>
  {
    map jobId | jobId in ids :: Remembered(memory, OutputOf(regs, logs, jobId), now, jobId)
  }

  /**
   * `update_memory`: a fresh memory with one entry per registered id. A new id, or one whose
   * output changed, is recorded with the time `now`; an unchanged one keeps its entry.
   */
  method UpdateMemory(memory: map<int, Memo>, ids: seq<int>, regs: map<int, Registration>,
                      logs: map<string, string>, now: int)
    returns (newMemory: map<int, Memo>)
    ensures newMemory == UpdatedMemory(memory, ids, regs, logs, now)
    ensures forall jobId :: jobId in newMemory <==> jobId in ids
    ensures forall jobId :: jobId in ids && jobId !in memory ==>
      newMemory[jobId] == Memo(OutputOf(regs, logs, jobId), now)
    ensures forall jobId :: jobId in ids && jobId in memory && memory[jobId].content == OutputOf(regs, logs, jobId) ==>
      newMemory[jobId] == memory[jobId]
    ensures forall jobId :: jobId in ids && jobId in memory && memory[jobId].content != OutputOf(regs, logs, jobId) ==>
      newMemory[jobId] == Memo(OutputOf(regs, logs, jobId), now)
  {
    newMemory := map[];
    for i := 0 to |ids|
      invariant newMemory == UpdatedMemory(memory, ids[..i], regs, logs, now)
    {
      var jobId := ids[i];
      var content := OutputOf(regs, logs, jobId);
      if jobId !in memory {
        newMemory := newMemory[jobId := Memo(content, now)];
      } else if content != memory[jobId].content {
        newMemory := newMemory[jobId := Memo(content, now)];
      } else {
        newMemory := newMemory[jobId := memory[jobId]];
      }
      UpdatedMemoryStep(memory, ids, i, regs, logs, now);
    }
    assert ids[..|ids|] == ids;
  }

  /** The memory for one more id is the memory so far with that id's entry set. */
  lemma UpdatedMemoryStep(memory: map<int, Memo>, ids: seq<int>, i: nat, regs: map<int, Registration>,
                          logs: map<string, string>, now: int)
    requires i < |ids|
    ensures UpdatedMemory(memory, ids[..i + 1], regs, logs, now)
      == UpdatedMemory(memory, ids[..i], regs, logs, now)[ids[i] := Remembered(memory, OutputOf(regs, logs, ids[i]), now, ids[i])]
  {
    assert ids[..i + 1] == ids[..i] + [ids[i]];
  }

  /** `job_has_stalled`: the job's output has not changed for more than `StaleTime`. */
  predicate Stalled(memory: map<int, Memo>, jobId: int, now: int)
    requires jobId in memory
  {
    now - memory[jobId].lastModified > StaleTime
  }

  /**
   * After `update_memory`, a job has stalled exactly when it was already remembered with
   * the output it has now, and that entry had already stalled.
   */
  lemma StalledAfterUpdate(memory: map<int, Memo>, ids: seq<int>, regs: map<int, Registration>,
                           logs: map<string, string>, now: int, jobId: int)
    requires jobId in ids
    ensures var updated := UpdatedMemory(memory, ids, regs, logs, now);
      jobId in updated
      && (Stalled(updated, jobId, now) <==>
            jobId in memory && memory[jobId].content == OutputOf(regs, logs, jobId) && Stalled(memory, jobId, now))
  {
  }

  /**
   * Starting from the empty memory, which is what the main loop passes on every tick,
   * no registered job has stalled.
   */
  lemma FreshMemoryNeverStalls(ids: seq<int>, regs: map<int, Registration>, logs: map<string, string>, now: int)
    ensures var updated := UpdatedMemory(map[], ids, regs, logs, now);
      forall jobId :: jobId in ids ==> jobId in updated && !Stalled(updated, jobId, now)
  {
  }

  /** Updating again with unchanged outputs, at any later time, changes nothing. */
  lemma UpdateIsStable(memory: map<int, Memo>, ids: seq<int>, regs: map<int, Registration>,
                       logs: map<string, string>, now: int, later: int)
    ensures var once := UpdatedMemory(memory, ids, regs, logs, now);
      UpdatedMemory(once, ids, regs, logs, later) == once
  {
  }

  // ---------------------------------------------------------------------------------
  // `job_has_error`: the marker rewrite
  // ---------------------------------------------------------------------------------

  predicate NonEmptyStrings(markers: seq<string>) {
    forall i :: 0 <= i < |markers| ==> markers[i] != []
  }

  /** The content after the rewrites for `markers`: each one found is replaced by its upper case. */
  function Handled(c: string, markers: seq<string>): string
    requires NonEmptyStrings(markers)
    decreases |markers|
  {
    if markers == [] then c
    else
      var prev := Handled(c, markers[..|markers| - 1]);
      var m := markers[|markers| - 1];
      if Contains(prev, m) then ReplaceAll(prev, m, Upper(m)) else prev
  }

  /** Some marker was found, each looked for in the content as rewritten so far. */
  predicate ErrorSeen(c: string, markers: seq<string>)
    requires NonEmptyStrings(markers)
    decreases |markers|
  {
    markers != []
    && (ErrorSeen(c, markers[..|markers| - 1])
        || Contains(Handled(c, markers[..|markers| - 1]), markers[|markers| - 1]))
  }

  /** The writes of the output file at `path`, one after each marker found. */
  function Writes(path: string, c: string, markers: seq<string>): seq<Action>
    requires NonEmptyStrings(markers)
    decreases |markers|
  {
    if markers == [] then []
    else
      var init := markers[..|markers| - 1];
      Writes(path, c, init)
        + (if Contains(Handled(c, init), markers[|markers| - 1]) then [WriteFile(path, Handled(c, markers))] else [])
  }

  /** The upper-case forms of the two markers. */
  lemma UpperMarkers()
    ensures Upper(SrunMarker) == "SRUN: ERROR"
    ensures Upper(ErrorMarker) == "ERROR"
  {
    assert forall i | 0 <= i < |SrunMarker| :: Upper(SrunMarker)[i] == "SRUN: ERROR"[i];
    assert forall i | 0 <= i < |ErrorMarker| :: Upper(ErrorMarker)[i] == "ERROR"[i];
  }

  /** The rewrite for both markers is `replace("srun: error", ...)` followed by `replace("Error", ...)`. */
  lemma HandledBoth(c: string)
    ensures NonEmptyStrings(Markers)
    ensures Handled(c, Markers) == ReplaceAll(ReplaceAll(c, SrunMarker, "SRUN: ERROR"), ErrorMarker, "ERROR")
    ensures ErrorSeen(c, Markers) <==> Contains(c, SrunMarker) || Contains(c, ErrorMarker)
  {
    UpperMarkers();
    assert Markers[..1] == [SrunMarker] && [SrunMarker][..0] == [];
    var c1 := ReplaceAll(c, SrunMarker, "SRUN: ERROR");
    if !Contains(c, SrunMarker) {
      ReplaceAllAbsent(c, SrunMarker, "SRUN: ERROR");
    }
    assert Handled(c, Markers[..1]) == c1;
    assert ErrorSeen(c, Markers[..1]) == Contains(c, SrunMarker);
    if !Contains(c1, ErrorMarker) {
      ReplaceAllAbsent(c1, ErrorMarker, "ERROR");
    }
  }

  /**
   * The rewritten output has the length of the original and holds neither marker, so
   * `job_has_error` finds nothing in it and rewriting it again changes nothing.
   */
  lemma HandledProperties(c: string)
    ensures NonEmptyStrings(Markers)
    ensures var h := Handled(c, Markers);
      && |h| == |c|
      && !Contains(h, SrunMarker) && !Contains(h, ErrorMarker)
      && !ErrorSeen(h, Markers)
      && Handled(h, Markers) == h
  {
    HandledBoth(c);
    MarkerFacts();
    var c1 := ReplaceAll(c, SrunMarker, "SRUN: ERROR");
    var h := ReplaceAll(c1, ErrorMarker, "ERROR");
    ReplaceAllLength(c, SrunMarker, "SRUN: ERROR");
    ReplaceAllLength(c1, ErrorMarker, "ERROR");
    ReplaceAllRemoves(c, SrunMarker, "SRUN: ERROR");
    ReplaceAllRemoves(c1, ErrorMarker, "ERROR");
    ReplaceAllIntroducesNothing(c1, ErrorMarker, "ERROR", SrunMarker);
    HandledBoth(h);
    ReplaceAllAbsent(h, SrunMarker, "SRUN: ERROR");
    ReplaceAllAbsent(h, ErrorMarker, "ERROR");
  }

  /** The two markers and their upper-case forms meet the conditions of the `ReplaceAll` lemmas. */
  lemma MarkerFacts()
    ensures SrunMarker != [] && |"SRUN: ERROR"| == |SrunMarker| && "SRUN: ERROR" != SrunMarker
    ensures SrunMarker[0] !in "SRUN: ERROR"[1..] && "SRUN: ERROR"[0] !in SrunMarker[1..]
    ensures ErrorMarker != [] && |"ERROR"| == |ErrorMarker| && "ERROR" != ErrorMarker
    ensures ErrorMarker[0] !in "ERROR"[1..] && "ERROR"[0] !in ErrorMarker[1..]
    ensures forall i :: 0 <= i < |"ERROR"| ==> "ERROR"[i] !in SrunMarker
  {
  }

  /** A marker found is followed by a write. */
  lemma {:induction false} WritesWhenSeen(path: string, c: string, markers: seq<string>)
    requires NonEmptyStrings(markers) && ErrorSeen(c, markers)
    ensures Writes(path, c, markers) != []
    decreases |markers|
  {
    var init := markers[..|markers| - 1];
    if ErrorSeen(c, init) {
      WritesWhenSeen(path, c, init);
    }
  }

  /** Without a marker nothing is written. */
  lemma {:induction false} NoMarkerNoWrite(path: string, c: string, markers: seq<string>)
    requires NonEmptyStrings(markers) && !ErrorSeen(c, markers)
    ensures Writes(path, c, markers) == [] && Handled(c, markers) == c
    decreases |markers|
  {
    if markers != [] {
      NoMarkerNoWrite(path, c, markers[..|markers| - 1]);
    }
  }

  /**
   * `job_has_error`: looks for each marker in turn in the job's output, rewrites the output
   * file after each one found, and reports whether any was found.
   */
  method JobHasError(regs: map<int, Registration>, logs: map<string, string>, jobId: int)
    returns (errorOccurred: bool, logs': map<string, string>, writes: seq<Action>)
    ensures NonEmptyStrings(Markers)
    ensures var c := OutputOf(regs, logs, jobId);
      && (errorOccurred <==> Contains(c, SrunMarker) || Contains(c, ErrorMarker))
      && errorOccurred == ErrorSeen(c, Markers)
      && writes == Writes(OutputPath(regs, jobId), c, Markers)
      && (errorOccurred ==> Readable(regs, jobId) && logs' == logs[regs[jobId].outputFile := Handled(c, Markers)])
      && (!errorOccurred ==> logs' == logs && writes == [])
  {
    ghost var c := OutputOf(regs, logs, jobId);
    ghost var path := OutputPath(regs, jobId);
    HandledBoth(c);
    var content := OutputOf(regs, logs, jobId);
    errorOccurred, logs', writes := false, logs, [];
    for i := 0 to |Markers|
      invariant content == Handled(c, Markers[..i])
      invariant errorOccurred == ErrorSeen(c, Markers[..i])
      invariant writes == Writes(path, c, Markers[..i])
      invariant errorOccurred ==> Readable(regs, jobId) && logs' == logs[path := content]
      invariant !errorOccurred ==> logs' == logs
      invariant !Readable(regs, jobId) ==> content == []
    {
      var marker := Markers[i];
      assert Markers[..i + 1][..i] == Markers[..i] && Markers[..i + 1][i] == marker;
      if Contains(content, marker) {
        content := ReplaceAll(content, marker, Upper(marker));
        var registration := regs[jobId];
        logs' := logs'[registration.outputFile := content];
        writes := writes + [WriteFile(registration.outputFile, content)];
        errorOccurred := true;
      }
    }
    assert Markers[..|Markers|] == Markers;
    if !errorOccurred {
      NoMarkerNoWrite(path, c, Markers);
    }
  }

  // ---------------------------------------------------------------------------------
  // One `poll_jobs`
  // ---------------------------------------------------------------------------------

  /**
   * The registrations, the output files and the actions `poll_jobs` threads through its
   * loop, and whether the loop has stopped on an exception its handler does not catch.
   */
  datatype Sweep = Sweep(regs: map<int, Registration>, logs: map<string, string>, actions: seq<Action>, crashed: bool)

  /** `job_is_dead`: an errored job counts only after the first tick; a clean one if it stalled. */
  predicate IsDead(errored: bool, first: bool, memory: map<int, Memo>, jobId: int, now: int)
    requires jobId in memory
  {
    if errored then !first else Stalled(memory, jobId, now)
  }

  /** `scancel`, then `sbatch` run in the script's directory, then removal of the registration. */
  function Resubmission(jobId: int, script: string): seq<Action> {
    [Cancel(jobId), Submit(script, DirName(script)), DeleteRegistration(jobId)]
  }

  /**
   * The loop body of `poll_jobs` for one listed id. A dead job whose registration is still
   * readable gets `scancel`, then `sbatch` in the script's directory, then loses its
   * registration. A dead job whose registration does not parse stops the loop: `json.load`
   * raises `JSONDecodeError`, which the handler (it catches only `IOError` and
   * `SubprocessError`) lets through, before `scancel` runs.
   */
  function JobStep(s: Sweep, jobId: int, first: bool, memory: map<int, Memo>, now: int): (r: Sweep)
    requires jobId in memory
    ensures |r.actions| >= |s.actions| && r.actions[..|s.actions|] == s.actions
  {
    HandledBoth(OutputOf(s.regs, s.logs, jobId));
    var c := OutputOf(s.regs, s.logs, jobId);
    var errored := ErrorSeen(c, Markers);
    var logs := if errored then s.logs[OutputPath(s.regs, jobId) := Handled(c, Markers)] else s.logs;
    var actions := s.actions + Writes(OutputPath(s.regs, jobId), c, Markers);
    if IsDead(errored, first, memory, jobId, now) && jobId in s.regs then
      if s.regs[jobId].Unparsable? then Sweep(s.regs, logs, actions, true)
      else Sweep(s.regs - {jobId}, logs, actions + Resubmission(jobId, s.regs[jobId].sbatchFile), s.crashed)
    else
      Sweep(s.regs, logs, actions, s.crashed)
  }

  predicate AllRemembered(ids: seq<int>, memory: map<int, Memo>) {
    forall i :: 0 <= i < |ids| ==> ids[i] in memory
  }

  /** The loop of `poll_jobs` over the listed ids, in listing order, until an exception ends it. */
  function JobSteps(s: Sweep, ids: seq<int>, first: bool, memory: map<int, Memo>, now: int): (r: Sweep)
    requires AllRemembered(ids, memory)
    ensures |r.actions| >= |s.actions| && r.actions[..|s.actions|] == s.actions
    ensures s.crashed ==> r == s
    decreases |ids|
  {
    if ids == [] then s
    else
      var mid := JobSteps(s, ids[..|ids| - 1], first, memory, now);
      if mid.crashed then mid else JobStep(mid, ids[|ids| - 1], first, memory, now)
  }

  /** `job_has_error` issues nothing but rewrites of the output file. */
  lemma {:induction false} WritesOnlyRewrite(path: string, c: string, markers: seq<string>)
    requires NonEmptyStrings(markers)
    ensures forall k :: 0 <= k < |Writes(path, c, markers)| ==>
      Writes(path, c, markers)[k].WriteFile? && Writes(path, c, markers)[k].path == path
    decreases |markers|
  {
    if markers != [] {
      WritesOnlyRewrite(path, c, markers[..|markers| - 1]);
    }
  }

  /**
   * For one listed id: the loop body rewrites the job's output file once per marker found,
   * leaving it without markers. Then, only for a dead job whose registration is still
   * readable, it issues the resubmission and drops that registration and no other; and
   * exactly for a dead job whose registration does not parse, it stops with nothing more.
   */
  lemma JobStepFacts(s: Sweep, jobId: int, first: bool, memory: map<int, Memo>, now: int)
    requires jobId in memory
    ensures NonEmptyStrings(Markers)
    ensures var r := JobStep(s, jobId, first, memory, now);
      var c := OutputOf(s.regs, s.logs, jobId);
      var path := OutputPath(s.regs, jobId);
      var isDead := IsDead(ErrorSeen(c, Markers), first, memory, jobId, now);
      var dead := isDead && Readable(s.regs, jobId);
      var stuck := isDead && jobId in s.regs && s.regs[jobId].Unparsable?;
      var writes := Writes(path, c, Markers);
      && (forall k :: 0 <= k < |writes| ==> writes[k].WriteFile? && writes[k].path == path)
      && (ErrorSeen(c, Markers) <==> writes != [])
      && (ErrorSeen(c, Markers) ==> Readable(s.regs, jobId))
      && (r.crashed <==> s.crashed || stuck)
      && (dead ==> r.actions == s.actions + writes + Resubmission(jobId, s.regs[jobId].sbatchFile)
                   && r.regs == s.regs - {jobId})
      && (stuck ==> r.actions == s.actions && r.regs == s.regs)
      && (!dead ==> r.actions == s.actions + writes && r.regs == s.regs)
      && (ErrorSeen(c, Markers) ==>
            path in r.logs && !Contains(r.logs[path], SrunMarker) && !Contains(r.logs[path], ErrorMarker))
      && (!ErrorSeen(c, Markers) ==> r.logs == s.logs)
  {
    var c := OutputOf(s.regs, s.logs, jobId);
    HandledBoth(c);
    HandledProperties(c);
    WritesOnlyRewrite(OutputPath(s.regs, jobId), c, Markers);
    if !ErrorSeen(c, Markers) {
      NoMarkerNoWrite(OutputPath(s.regs, jobId), c, Markers);
    } else {
      WritesWhenSeen(OutputPath(s.regs, jobId), c, Markers);
    }
  }

  /** No memory entry has stalled at time `now`. */
  predicate NothingStalled(memory: map<int, Memo>, now: int) {
    forall jobId :: jobId in memory ==> !Stalled(memory, jobId, now)
  }

  /**
   * When no entry has stalled, as after `update_memory` on the empty memory the main loop
   * always passes, the first tick only rewrites output files: it cancels, resubmits and
   * removes nothing.
   */
  lemma {:induction false} FirstTickOnlyRewrites(s: Sweep, ids: seq<int>, memory: map<int, Memo>, now: int)
    requires AllRemembered(ids, memory) && NothingStalled(memory, now)
    ensures var r := JobSteps(s, ids, true, memory, now);
      forall k :: |s.actions| <= k < |r.actions| ==> r.actions[k].WriteFile?
    decreases |ids|
  {
    if ids != [] {
      var init := ids[..|ids| - 1];
      var mid := JobSteps(s, init, true, memory, now);
      FirstTickOnlyRewrites(s, init, memory, now);
      assert var r0 := JobSteps(s, init, true, memory, now);
        forall k :: |s.actions| <= k < |r0.actions| ==> r0.actions[k].WriteFile?;
      if mid.crashed {
        return;
      }
      JobStepFacts(mid, ids[|ids| - 1], true, memory, now);
      var r := JobSteps(s, ids, true, memory, now);
      var writes := Writes(OutputPath(mid.regs, ids[|ids| - 1]), OutputOf(mid.regs, mid.logs, ids[|ids| - 1]), Markers);
      assert r.actions == mid.actions + writes;
      forall k | |s.actions| <= k < |r.actions| ensures r.actions[k].WriteFile? {
        if k < |mid.actions| {
          assert r.actions[k] == mid.actions[k];
        } else {
          assert r.actions[k] == writes[k - |mid.actions|];
        }
      }
    }
  }

  /** The caller's memory is always empty, so the first tick of the main loop only rewrites output files. */
  lemma MainLoopFirstTick(listing: seq<int>, regs: map<int, Registration>, logs: map<string, string>, now: int)
    ensures var memory := UpdatedMemory(map[], listing, regs, logs, now);
      AllRemembered(listing, memory)
      && var r := JobSteps(Sweep(regs, logs, [], false), listing, true, memory, now);
        forall k :: 0 <= k < |r.actions| ==> r.actions[k].WriteFile?
  {
    var memory := UpdatedMemory(map[], listing, regs, logs, now);
    FreshMemoryNeverStalls(listing, regs, logs, now);
    FirstTickOnlyRewrites(Sweep(regs, logs, [], false), listing, memory, now);
  }

  /**
   * A registration that does not parse has no output, so it is never found with an error;
   * only a stalled entry can make such a job dead. Without stalled entries no tick crashes.
   */
  lemma {:induction false} NoCrashWithoutStall(s: Sweep, ids: seq<int>, first: bool, memory: map<int, Memo>, now: int)
    requires AllRemembered(ids, memory) && NothingStalled(memory, now) && !s.crashed
    ensures !JobSteps(s, ids, first, memory, now).crashed
    decreases |ids|
  {
    if ids != [] {
      var init := ids[..|ids| - 1];
      NoCrashWithoutStall(s, init, first, memory, now);
      JobStepFacts(JobSteps(s, init, first, memory, now), ids[|ids| - 1], first, memory, now);
    }
  }

  /**
   * The main loop passes the empty memory on every tick, so an unparsable registration
   * never stops it, on the first tick or any later one.
   */
  lemma MainLoopNeverCrashes(listing: seq<int>, first: bool, regs: map<int, Registration>, logs: map<string, string>, now: int)
    ensures var memory := UpdatedMemory(map[], listing, regs, logs, now);
      AllRemembered(listing, memory)
      && !JobSteps(Sweep(regs, logs, [], false), listing, first, memory, now).crashed
  {
    var memory := UpdatedMemory(map[], listing, regs, logs, now);
    FreshMemoryNeverStalls(listing, regs, logs, now);
    NoCrashWithoutStall(Sweep(regs, logs, [], false), listing, first, memory, now);
  }

  /**
   * With a memory that remembers the job's empty output from long ago, a job whose
   * registration does not parse stops `poll_jobs` before anything is cancelled.
   */
  lemma StaleUnparsableCrashes(jobId: int, first: bool, logs: map<string, string>, since: int, now: int)
    requires now - since > StaleTime
    ensures var regs := map[jobId := Unparsable];
      var memory := UpdatedMemory(map[jobId := Memo("", since)], [jobId], regs, logs, now);
      AllRemembered([jobId], memory)
      && JobSteps(Sweep(regs, logs, [], false), [jobId], first, memory, now) == Sweep(regs, logs, [], true)
  {
    var regs := map[jobId := Unparsable];
    var memory := UpdatedMemory(map[jobId := Memo("", since)], [jobId], regs, logs, now);
    assert [jobId][..0] == [];
    assert memory[jobId] == Memo("", since);
    JobStepFacts(Sweep(regs, logs, [], false), jobId, first, memory, now);
  }

  /** Every job cancelled so far has lost its registration. */
  predicate CancelledAreGone(s: Sweep) {
    forall k :: 0 <= k < |s.actions| && s.actions[k].Cancel? ==> s.actions[k].jobId !in s.regs
  }

  /** No job is cancelled twice. */
  predicate CancelsDistinct(actions: seq<Action>) {
    forall i, j :: 0 <= i < j < |actions| && actions[i].Cancel? && actions[j].Cancel? ==> actions[i].jobId != actions[j].jobId
  }

  /**
   * Appending rewrites, and possibly one resubmission of a registered job that then loses
   * its registration, keeps both.
   */
  lemma AppendKeepsCancelsOnce(s: Sweep, writes: seq<Action>, tail: seq<Action>, r: Sweep, jobId: int, script: string)
    requires CancelledAreGone(s) && CancelsDistinct(s.actions)
    requires forall k :: 0 <= k < |writes| ==> writes[k].WriteFile?
    requires r.actions == s.actions + writes + tail
    requires (tail == [] && r.regs == s.regs)
      || (tail == Resubmission(jobId, script) && jobId in s.regs && r.regs == s.regs - {jobId})
    ensures CancelledAreGone(r) && CancelsDistinct(r.actions)
  {
    var n := |s.actions| + |writes|;
    forall k | 0 <= k < |s.actions| ensures r.actions[k] == s.actions[k] {
      assert r.actions[k] == (s.actions + writes)[k];
    }
    forall k | |s.actions| <= k < n ensures r.actions[k] == writes[k - |s.actions|] {
      assert r.actions[k] == (s.actions + writes)[k];
    }
    forall k | n <= k < |r.actions| && r.actions[k].Cancel?
      ensures k == n && r.actions[k] == Cancel(jobId) && jobId in s.regs && jobId !in r.regs
    {
      assert r.actions[k] == tail[k - n];
    }
  }

  /** The loop body keeps both: it cancels only a job it then deregisters. */
  lemma JobStepCancelsOnce(s: Sweep, jobId: int, first: bool, memory: map<int, Memo>, now: int)
    requires jobId in memory && CancelledAreGone(s) && CancelsDistinct(s.actions)
    ensures CancelledAreGone(JobStep(s, jobId, first, memory, now))
    ensures CancelsDistinct(JobStep(s, jobId, first, memory, now).actions)
  {
    var r := JobStep(s, jobId, first, memory, now);
    JobStepFacts(s, jobId, first, memory, now);
    var c := OutputOf(s.regs, s.logs, jobId);
    var writes := Writes(OutputPath(s.regs, jobId), c, Markers);
    var dead := IsDead(ErrorSeen(c, Markers), first, memory, jobId, now) && Readable(s.regs, jobId);
    var script := if Readable(s.regs, jobId) then s.regs[jobId].sbatchFile else "";
    var tail := if dead then Resubmission(jobId, script) else [];
    assert r.actions == s.actions + writes + tail;
    AppendKeepsCancelsOnce(s, writes, tail, r, jobId, script);
  }

  /** Even when an id is listed twice, `poll_jobs` cancels each job at most once per call. */
  lemma {:induction false} CancelsEachJobOnce(s: Sweep, ids: seq<int>, first: bool, memory: map<int, Memo>, now: int)
    requires AllRemembered(ids, memory) && CancelledAreGone(s) && CancelsDistinct(s.actions)
    ensures CancelledAreGone(JobSteps(s, ids, first, memory, now))
    ensures CancelsDistinct(JobSteps(s, ids, first, memory, now).actions)
    decreases |ids|
  {
    if ids != [] {
      var init := ids[..|ids| - 1];
      CancelsEachJobOnce(s, init, first, memory, now);
      if !JobSteps(s, init, first, memory, now).crashed {
        JobStepCancelsOnce(JobSteps(s, init, first, memory, now), ids[|ids| - 1], first, memory, now);
      }
    }
  }

  /**
   * `poll_jobs(file_contents_memory, first)`: `listing` is the registration directory's ids,
   * `regs` the readable registrations, `logs` the readable output files. The updated memory
   * stays local, as the rebinding in the source leaves the caller's dictionary unchanged.
   */
  method PollJobs(memory: map<int, Memo>, first: bool, listing: seq<int>, regs: map<int, Registration>,
                  logs: map<string, string>, now: int)
    returns (r: Sweep)
    ensures var current := UpdatedMemory(memory, listing, regs, logs, now);
      AllRemembered(listing, current) && r == JobSteps(Sweep(regs, logs, [], false), listing, first, current, now)
  {
    var current := UpdateMemory(memory, listing, regs, logs, now);
    ghost var start := Sweep(regs, logs, [], false);
    var regs', logs', actions, crashed := regs, logs, [], false;
    for i := 0 to |listing|
      invariant Sweep(regs', logs', actions, crashed) == JobSteps(start, listing[..i], first, current, now)
    {
      var jobId := listing[i];
      assert listing[..i + 1][..i] == listing[..i] && listing[..i + 1][i] == jobId;
      if crashed {
        // the exception has already left `poll_jobs`
        continue;
      }
      var errorOccurred, written, writes := JobHasError(regs', logs', jobId);
      logs', actions := written, actions + writes;
      var jobIsDead;
      if errorOccurred {
        jobIsDead := !first;
      } else if Stalled(current, jobId, now) {
        jobIsDead := true;
      } else {
        jobIsDead := false;
      }
      if jobIsDead && jobId in regs' {
        if regs'[jobId].Unparsable? {
          // `json.load` raises `JSONDecodeError`, which the handler does not catch
          crashed := true;
        } else {
          actions := actions + Resubmission(jobId, regs'[jobId].sbatchFile);
          regs' := regs' - {jobId};
        }
      }
    }
    assert listing[..|listing|] == listing;
    r := Sweep(regs', logs', actions, crashed);
  }
}
