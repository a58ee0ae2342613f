/**
 * One iteration of the held-job releaser: when the snapshot refreshes, release as many jobs
 * held by their user as the quota of running jobs allows, in table order.
 */
module ReleaseJobs {
  import opened Wrappers
  import opened Monitor
  import opened Effects

  /** The snapshot cooldown of the releaser, in seconds. */
  const ReleaseCooldown := 60 * 2

  /** The ST of a running job. */
  const RunningState := "R"

  /** The NODELIST(REASON) of a job held by its user. */
  const HeldReason := "(JobHeldUser)"

  /** The number of rows whose ST is `R`. */
  function CountRunning(rows: seq<Row>): (n: nat)
    ensures n <= |rows|
  {
    if rows == [] then 0
    else CountRunning(rows[..|rows| - 1]) + (if rows[|rows| - 1].state == RunningState then 1 else 0)
  }

  /** The JOBIDs of the rows held by their user, in table order. */
  function HeldIds(rows: seq<Row>): (ids: seq<string>)
    ensures |ids| <= |rows|
  {
    if rows == [] then []
    else HeldIds(rows[..|rows| - 1]) + (if rows[|rows| - 1].reason == HeldReason then [rows[|rows| - 1].jobId] else [])
  }

  /** The number of further jobs that may run: `max_jobs` minus the running ones. */
  function Quota(rows: seq<Row>, maxJobs: int): int {
    maxJobs - CountRunning(rows)
  }

  /** `jobids[:num_to_submit]` for a positive quota, nothing otherwise. */
  function Selected(rows: seq<Row>, maxJobs: int): seq<string> {
    var quota := Quota(rows, maxJobs);
    var held := HeldIds(rows);
    if quota <= 0 then [] else held[..if quota < |held| then quota else |held|]
  }

  /** One `scontrol release` per id, in order. */
  function Releases(ids: seq<string>): (r: seq<Action>)
    ensures |r| == |ids|
  {
    seq(|ids|, i requires 0 <= i < |ids| => Release(ids[i]))
  }

  /** Both counts split over a concatenation of tables, so the held ids keep table order. */
  lemma {:induction false} CountsOfConcat(a: seq<Row>, b: seq<Row>)
    ensures CountRunning(a + b) == CountRunning(a) + CountRunning(b)
    ensures HeldIds(a + b) == HeldIds(a) + HeldIds(b)
    decreases |b|
  {
    if b == [] {
      assert a + b == a;
    } else {
      var b' := b[..|b| - 1];
      assert (a + b)[..|a + b| - 1] == a + b';
      assert (a + b)[|a + b| - 1] == b[|b| - 1];
      CountsOfConcat(a, b');
    }
  }

  /** A job id is held exactly when some row with that JOBID has reason `(JobHeldUser)`. */
  lemma {:induction false} HeldIdsExact(rows: seq<Row>, id: string)
    ensures id in HeldIds(rows) <==> exists i :: 0 <= i < |rows| && rows[i].jobId == id && rows[i].reason == HeldReason
    decreases |rows|
  {
    if rows != [] {
      var init := rows[..|rows| - 1];
      HeldIdsExact(init, id);
      if exists i :: 0 <= i < |init| && init[i].jobId == id && init[i].reason == HeldReason {
        var i :| 0 <= i < |init| && init[i].jobId == id && init[i].reason == HeldReason;
        assert rows[i] == init[i];
      }
      if exists i :: 0 <= i < |rows| && rows[i].jobId == id && rows[i].reason == HeldReason {
        var i :| 0 <= i < |rows| && rows[i].jobId == id && rows[i].reason == HeldReason;
        if i < |init| {
          assert init[i] == rows[i];
        }
      }
    }
  }

  /**
   * The selection is the first min(quota, held) held ids when the quota is positive, and
   * empty otherwise; every selected id is held, and no more than max(0, quota) are selected.
   */
  lemma SelectionFacts(rows: seq<Row>, maxJobs: int)
    ensures var quota := Quota(rows, maxJobs);
      var chosen := Selected(rows, maxJobs);
      && (quota <= 0 ==> chosen == [])
      && (quota > 0 ==> |chosen| == (if quota < |HeldIds(rows)| then quota else |HeldIds(rows)|))
      && chosen == HeldIds(rows)[..|chosen|]
      && |chosen| <= (if quota > 0 then quota else 0)
      && forall id :: id in chosen ==>
           exists i :: 0 <= i < |rows| && rows[i].jobId == id && rows[i].reason == HeldReason
  {
    var chosen := Selected(rows, maxJobs);
    forall id | id in chosen
      ensures exists i :: 0 <= i < |rows| && rows[i].jobId == id && rows[i].reason == HeldReason
    {
      HeldIdsExact(rows, id);
    }
  }

  /** The monitor `main` creates before its loop: a 120-second cooldown and no snapshot yet. */
  method StartMonitor() returns (monitor: SlurmMonitor)
    ensures fresh(monitor)
    ensures monitor.cooldownSeconds == ReleaseCooldown && monitor.lastPeek == 0 && monitor.latestInfo == None
  {
    monitor := new SlurmMonitor(ReleaseCooldown);
  }

  /**
   * One pass of the loop in `main` at time `now`, with `squeueOutput` what `squeue` prints if
   * the monitor refreshes: nothing happens unless it refreshes and the quota is positive; then
   * the selected held jobs are released in table order.
   */
  method ReleaseIteration(monitor: SlurmMonitor, maxJobs: int, now: int, squeueOutput: string)
    returns (actions: seq<Action>)
    modifies monitor
    ensures now - old(monitor.lastPeek) > monitor.cooldownSeconds ==>
      monitor.lastPeek == now && monitor.latestInfo == Some(ParseSqueue(squeueOutput))
      && actions == Releases(Selected(ParseSqueue(squeueOutput), maxJobs))
    ensures now - old(monitor.lastPeek) <= monitor.cooldownSeconds ==>
      monitor.lastPeek == old(monitor.lastPeek) && monitor.latestInfo == old(monitor.latestInfo)
      && actions == []
  {
    var refreshed := monitor.Refresh(now, false, squeueOutput);
    if !refreshed {
      return [];
    }
    actions := ReleaseHeld(monitor.latestInfo.value, maxJobs);
  }

  /**
   * The rest of the pass, on the fresh table: count the running jobs and, for a positive
   * quota, release that many of the held jobs, in table order.
   */
  method ReleaseHeld(rows: seq<Row>, maxJobs: int) returns (actions: seq<Action>)
    ensures actions == Releases(Selected(rows, maxJobs))
    ensures maxJobs <= CountRunning(rows) ==> actions == []
  {
    var toSubmit := maxJobs - CountRunning(rows);
    if toSubmit <= 0 {
      return [];
    }
    var held := HeldIds(rows);
    actions := ReleaseAll(held[..if toSubmit < |held| then toSubmit else |held|]);
  }

  /** The loop `for jobid in jobids[:num_to_submit]` issuing `scontrol release`. */
  method ReleaseAll(chosen: seq<string>) returns (actions: seq<Action>)
    ensures actions == Releases(chosen)
    ensures forall i :: 0 <= i < |chosen| ==> actions[i] == Release(chosen[i])
  {
    actions := [];
    for i := 0 to |chosen|
      invariant actions == Releases(chosen[..i])
    {
      actions := actions + [Release(chosen[i])];
    }
    assert chosen[..|chosen|] == chosen;
  }
}
