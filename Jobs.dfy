/**
 * The job-status state machine of the CI driver: the "still running" test,
 * the status refresh, the per-poll tally with its write-once stop stamps,
 * the final tally, and the monitoring loop that polls until no job is
 * Running or Submitted.
 *
 * The workflow server's status endpoint is a parameter `query(k, id)`: the
 * record it returns for job `id` at poll number `k`. The wall clock is a
 * parameter `clock(k)`: the tick read at poll `k`. A dict the source updates
 * in place is a map that the methods here return updated.
 */
module Jobs {
  import opened Wrappers

  type Tick = int

  /** A job record as the server returns it: `{"id": ..., "status": ...}`. */
  datatype Job = Job(id: string, status: string)

  /** The `times[test]` record: submission time and the write-once stop time. */
  datatype Times = Times(start: Tick, stop: Option<Tick>)

  /** One progress line of the monitoring loop. */
  datatype Progress = Progress(total: nat, finished: nat, succeeded: nat, failed: nat)

  /** The statuses that keep the polling loop going. Every other string,
      including ones the server may invent, counts as finished. */
  predicate IsActive(status: string) {
    status == "Running" || status == "Submitted"
  }

  /** The statuses on which a poll stamps the stop time. */
  predicate IsTerminal(status: string) {
    status == "Failed" || status == "Succeeded"
  }

  predicate AnyActive(jobs: map<string, Job>) {
    exists t :: t in jobs && IsActive(jobs[t].status)
  }

  /** The tests among `keys` whose job is active. */
  function ActiveAmong(jobs: map<string, Job>, keys: set<string>): set<string> {
    set t | t in keys && t in jobs && IsActive(jobs[t].status)
  }

  /** The tests among `keys` whose job has status `s`. */
  function WithStatusAmong(jobs: map<string, Job>, keys: set<string>, s: string): set<string> {
    set t | t in keys && t in jobs && jobs[t].status == s
  }

  /** Processing one more test adds it to the active tests exactly when its
      job is active. */
  lemma ActiveStep(jobs: map<string, Job>, done: set<string>, t: string)
    requires t in jobs && t !in done
    ensures |ActiveAmong(jobs, done + {t})|
            == |ActiveAmong(jobs, done)| + (if IsActive(jobs[t].status) then 1 else 0)
  {
    if IsActive(jobs[t].status) {
      assert ActiveAmong(jobs, done + {t}) == ActiveAmong(jobs, done) + {t};
    } else {
      assert ActiveAmong(jobs, done + {t}) == ActiveAmong(jobs, done);
    }
  }

  /** Processing one more test adds it to the tests with status `s` exactly
      when its job has that status. */
  lemma StatusStep(jobs: map<string, Job>, done: set<string>, t: string, s: string)
    requires t in jobs && t !in done
    ensures |WithStatusAmong(jobs, done + {t}, s)|
            == |WithStatusAmong(jobs, done, s)| + (if jobs[t].status == s then 1 else 0)
  {
    if jobs[t].status == s {
      assert WithStatusAmong(jobs, done + {t}, s) == WithStatusAmong(jobs, done, s) + {t};
    } else {
      assert WithStatusAmong(jobs, done + {t}, s) == WithStatusAmong(jobs, done, s);
    }
  }

  /** Processing one more test adds it to the terminal tests exactly when its
      job is Failed or Succeeded. */
  lemma TerminalStep(jobs: map<string, Job>, done: set<string>, t: string)
    requires t in jobs
    ensures TerminalAmong(jobs, done + {t})
            == TerminalAmong(jobs, done) + (if IsTerminal(jobs[t].status) then {t} else {})
  {
  }

  /** `jobs_are_running`: a flag loop over every test that answers whether
      some job is Running or Submitted. */
  method JobsAreRunning(jobs: map<string, Job>) returns (running: bool)
    ensures running <==> AnyActive(jobs)
  {
    running := false;
    var done: set<string> := {};
    while done != jobs.Keys
      invariant done <= jobs.Keys
      invariant running <==> exists t :: t in done && IsActive(jobs[t].status)
      decreases jobs.Keys - done
    {
      assert jobs.Keys - done != {};
      var t :| t in jobs.Keys - done;
      if jobs[t].status == "Running" || jobs[t].status == "Submitted" {
        running := true;
      }
      done := done + {t};
    }
  }

  /** `update_status` at poll `k`: a new map with the same tests, each
      holding the server's fresh answer for that job's id. */
  method UpdateStatus(jobs: map<string, Job>, query: (nat, string) -> Job, k: nat)
    returns (updated: map<string, Job>)
    ensures updated.Keys == jobs.Keys
    ensures forall t | t in updated :: updated[t] == query(k, jobs[t].id)
  {
    updated := map[];
    var done: set<string> := {};
    while done != jobs.Keys
      invariant done <= jobs.Keys && updated.Keys == done
      invariant forall t | t in updated :: updated[t] == query(k, jobs[t].id)
      decreases jobs.Keys - done
    {
      assert jobs.Keys - done != {};
      var t :| t in jobs.Keys - done;
      updated := updated[t := query(k, jobs[t].id)];
      done := done + {t};
    }
  }

  /** `stamped` is `times` with the stop time `now` written for exactly the
      tests in `due` that had none: starts and existing stops are kept. */
  ghost predicate StampedOnce(times: map<string, Times>, stamped: map<string, Times>, due: set<string>, now: Tick) {
    && stamped.Keys == times.Keys
    && forall u | u in times ::
         && stamped[u].start == times[u].start
         && stamped[u].stop == (if times[u].stop.None? && u in due then Some(now) else times[u].stop)
  }

  /** Stamp the stop time `now` on test `t` unless it already has one. */
  function StampIfUnset(times: map<string, Times>, t: string, now: Tick): (r: map<string, Times>)
    requires t in times
    ensures StampedOnce(times, r, {t}, now)
  {
    if times[t].stop.None? then times[t := times[t].(stop := Some(now))] else times
  }

  /** Stamping one more test extends a stamping of `due` to `due + {t}`. */
  lemma StampStep(times: map<string, Times>, stamped: map<string, Times>, due: set<string>, t: string, now: Tick)
    requires t in times && StampedOnce(times, stamped, due, now)
    ensures StampedOnce(times, StampIfUnset(stamped, t, now), due + {t}, now)
  {
  }

  /** The tests among `keys` whose job is Failed or Succeeded. */
  function TerminalAmong(jobs: map<string, Job>, keys: set<string>): set<string> {
    set t | t in keys && t in jobs && IsTerminal(jobs[t].status)
  }

  /** The tally of one poll while jobs are still running: finished is the
      number of jobs minus the active ones, failures and successes are
      counted, and a Failed or Succeeded job gets the stop stamp `now` only
      if it has none yet. */
  method PollTally(jobs: map<string, Job>, times: map<string, Times>, now: Tick)
    returns (numFinished: nat, numSucceeded: nat, numFailed: nat, stamped: map<string, Times>)
    requires jobs.Keys <= times.Keys
    ensures numFinished == |jobs| - |ActiveAmong(jobs, jobs.Keys)|
    ensures numSucceeded == |WithStatusAmong(jobs, jobs.Keys, "Succeeded")|
    ensures numFailed == |WithStatusAmong(jobs, jobs.Keys, "Failed")|
    ensures numSucceeded + numFailed <= numFinished <= |jobs|
    ensures StampedOnce(times, stamped, TerminalAmong(jobs, jobs.Keys), now)
  {
    var finished: int := |jobs|;
    var failed, succeeded := 0, 0;
    stamped := times;
    var done: set<string> := {};
    while done != jobs.Keys
      invariant done <= jobs.Keys
      invariant finished == |jobs| - |ActiveAmong(jobs, done)|
      invariant succeeded == |WithStatusAmong(jobs, done, "Succeeded")|
      invariant failed == |WithStatusAmong(jobs, done, "Failed")|
      invariant StampedOnce(times, stamped, TerminalAmong(jobs, done), now)
      decreases jobs.Keys - done
    {
      assert jobs.Keys - done != {};
      var t :| t in jobs.Keys - done;
      ActiveStep(jobs, done, t);
      StatusStep(jobs, done, t, "Succeeded");
      StatusStep(jobs, done, t, "Failed");
      TerminalStep(jobs, done, t);
      var status := jobs[t].status;
      if status == "Running" || status == "Submitted" {
        finished := finished - 1;
      } else if status == "Failed" {
        failed := failed + 1;
        StampStep(times, stamped, TerminalAmong(jobs, done), t, now);
        stamped := StampIfUnset(stamped, t, now);
      } else if status == "Succeeded" {
        succeeded := succeeded + 1;
        StampStep(times, stamped, TerminalAmong(jobs, done), t, now);
        stamped := StampIfUnset(stamped, t, now);
      }
      done := done + {t};
    }
    TallyBounds(jobs);
    numFinished, numSucceeded, numFailed := finished, succeeded, failed;
  }

  /** The tally after the loop: every job is counted once, as succeeded when
      its status is Succeeded and as failed otherwise, and every job without
      a stop stamp gets `now`. */
  method FinalTally(jobs: map<string, Job>, times: map<string, Times>, now: Tick)
    returns (numFinished: nat, numSucceeded: nat, numFailed: nat, stamped: map<string, Times>)
    requires jobs.Keys <= times.Keys
    ensures numFinished == |jobs|
    ensures numSucceeded == |WithStatusAmong(jobs, jobs.Keys, "Succeeded")|
    ensures numSucceeded + numFailed == numFinished
    ensures StampedOnce(times, stamped, jobs.Keys, now)
    ensures forall u | u in jobs :: stamped[u].stop.Some?
  {
    var failed, succeeded := 0, 0;
    stamped := times;
    var done: set<string> := {};
    while done != jobs.Keys
      invariant done <= jobs.Keys
      invariant succeeded == |WithStatusAmong(jobs, done, "Succeeded")|
      invariant succeeded + failed == |done|
      invariant StampedOnce(times, stamped, done, now)
      decreases jobs.Keys - done
    {
      assert jobs.Keys - done != {};
      var t :| t in jobs.Keys - done;
      StatusStep(jobs, done, t, "Succeeded");
      if jobs[t].status == "Succeeded" {
        succeeded := succeeded + 1;
      } else {
        failed := failed + 1;
      }
      StampStep(times, stamped, done, t, now);
      stamped := StampIfUnset(stamped, t, now);
      done := done + {t};
    }
    numFinished, numSucceeded, numFailed := |jobs|, succeeded, failed;
  }

  /** The stamping of one poll as a value: `now` on every test in `due`
      that has no stop yet. */
  function Stamp(times: map<string, Times>, due: set<string>, now: Tick): map<string, Times> {
    map u | u in times :: if times[u].stop.None? && u in due then times[u].(stop := Some(now)) else times[u]
  }

  /** A write-once stamping is the value `Stamp` computes. */
  lemma StampedOnceIsStamp(times: map<string, Times>, stamped: map<string, Times>, due: set<string>, now: Tick)
    requires StampedOnce(times, stamped, due, now)
    ensures stamped == Stamp(times, due, now)
  {
    var s := Stamp(times, due, now);
    forall u | u in times ensures stamped[u] == s[u] {
      assert stamped[u].start == s[u].start && stamped[u].stop == s[u].stop;
    }
  }

  /** The job map after `n` polls: each poll replaces every test's job by
      the server's answer for the id that job holds. */
  function PolledAt(jobs0: map<string, Job>, query: (nat, string) -> Job, n: nat): (r: map<string, Job>)
    ensures r.Keys == jobs0.Keys
    decreases n
  {
    if n == 0 then jobs0
    else
      var prev := PolledAt(jobs0, query, n - 1);
      map t | t in prev :: query(n - 1, prev[t].id)
  }

  /** The stop stamps after `n` polls: poll `k` stamps `clock(k)` on every
      Failed or Succeeded job without a stop, but only when some job is
      still active after it (otherwise the loop breaks first). */
  function StampsAt(jobs0: map<string, Job>, times0: map<string, Times>, query: (nat, string) -> Job,
                    clock: nat -> Tick, n: nat): (r: map<string, Times>)
    ensures r.Keys == times0.Keys
    decreases n
  {
    if n == 0 then times0
    else
      var p := PolledAt(jobs0, query, n);
      var prev := StampsAt(jobs0, times0, query, clock, n - 1);
      if AnyActive(p) then Stamp(prev, TerminalAmong(p, p.Keys), clock(n - 1)) else prev
  }

  /** The progress line of a poll: the number of jobs, the finished ones
      (all but the active), and the succeeded and failed ones. */
  function ProgressOf(jobs: map<string, Job>): (p: Progress)
    ensures p.total == |jobs| && p.succeeded + p.failed <= p.finished <= p.total
    ensures p.finished == |jobs| - |ActiveAmong(jobs, jobs.Keys)|
  {
    TallyBounds(jobs);
    Progress(|jobs|, |jobs| - |ActiveAmong(jobs, jobs.Keys)|,
             |WithStatusAmong(jobs, jobs.Keys, "Succeeded")|, |WithStatusAmong(jobs, jobs.Keys, "Failed")|)
  }

  /** The finished count of the last progress line, -1 before the first. */
  function LastFinished(reports: seq<Progress>): int {
    if reports == [] then -1 else reports[|reports| - 1].finished
  }

  /** The progress lines printed in `n` polls: a poll at which some job is
      active prints its line when its finished count differs from the last
      printed one. */
  function ReportsAt(jobs0: map<string, Job>, query: (nat, string) -> Job, n: nat): seq<Progress>
    decreases n
  {
    if n == 0 then []
    else
      var p := PolledAt(jobs0, query, n);
      var prev := ReportsAt(jobs0, query, n - 1);
      if AnyActive(p) && ProgressOf(p).finished != LastFinished(prev) then prev + [ProgressOf(p)] else prev
  }

  /** Poll `k` stamps test `u`: after it some job is still active and `u`'s
      job is Failed or Succeeded. */
  predicate StampsOn(jobs0: map<string, Job>, query: (nat, string) -> Job, k: nat, u: string) {
    var p := PolledAt(jobs0, query, k + 1);
    AnyActive(p) && u in p && IsTerminal(p[u].status)
  }

  /** The least `k < n` with `hit(k)`, if any. */
  function FirstHit(hit: nat -> bool, n: nat): Option<nat>
    decreases n
  {
    if n == 0 then None
    else
      var earlier := FirstHit(hit, n - 1);
      if earlier.Some? then earlier
      else if hit(n - 1) then Some(n - 1)
      else None
  }

  /** `FirstHit` finds a hit below `n` that no earlier index has, and finds
      none exactly when there is no hit below `n`. */
  lemma {:induction false} FirstHitSpec(hit: nat -> bool, n: nat)
    ensures var r := FirstHit(hit, n);
            && (r.Some? ==> r.value < n && hit(r.value) && forall j | 0 <= j < r.value :: !hit(j))
            && (r.None? ==> forall j | 0 <= j < n :: !hit(j))
    decreases n
  {
    if n > 0 {
      FirstHitSpec(hit, n - 1);
    }
  }

  /** Which polls stamp test `u`. */
  function StampingPolls(jobs0: map<string, Job>, query: (nat, string) -> Job, u: string): nat -> bool {
    (k: nat) => StampsOn(jobs0, query, k, u)
  }

  /** The first of the polls `0 .. n-1` that stamps test `u`, if any. */
  function FirstStamp(jobs0: map<string, Job>, query: (nat, string) -> Job, u: string, n: nat): Option<nat> {
    FirstHit(StampingPolls(jobs0, query, u), n)
  }

  /** Stops are write-once across polls: a stop set after `m` polls is
      still the same after any later number of polls. */
  lemma {:induction false} StampsWriteOnce(jobs0: map<string, Job>, times0: map<string, Times>,
                                           query: (nat, string) -> Job, clock: nat -> Tick,
                                           m: nat, n: nat, u: string)
    requires m <= n && u in times0
    requires StampsAt(jobs0, times0, query, clock, m)[u].stop.Some?
    ensures StampsAt(jobs0, times0, query, clock, n)[u] == StampsAt(jobs0, times0, query, clock, m)[u]
    decreases n
  {
    if m < n {
      StampsWriteOnce(jobs0, times0, query, clock, m, n - 1, u);
    }
  }

  /** The conclusion of `StampsAtSpec` after `n` polls. */
  ghost predicate StopsAfter(jobs0: map<string, Job>, times0: map<string, Times>,
                             query: (nat, string) -> Job, clock: nat -> Tick, n: nat, u: string)
    requires u in times0
  {
    var now := StampsAt(jobs0, times0, query, clock, n)[u];
    var first := FirstStamp(jobs0, query, u, n);
    && now.start == times0[u].start
    && (times0[u].stop.Some? || u !in jobs0 ==> now == times0[u])
    && (times0[u].stop.None? && u in jobs0 ==> now.stop == if first.Some? then Some(clock(first.value)) else None)
  }

  /** What the polls do to one test's times: the start is kept; a test with
      a stop already, or without a job, is left alone; otherwise its stop is
      the clock reading of the first poll that found it Failed or Succeeded
      while another job was still active, and unset when there was none. */
  lemma StampsAtSpec(jobs0: map<string, Job>, times0: map<string, Times>,
                     query: (nat, string) -> Job, clock: nat -> Tick, n: nat, u: string)
    requires u in times0
    ensures StampsAt(jobs0, times0, query, clock, n)[u].start == times0[u].start
    ensures times0[u].stop.Some? || u !in jobs0 ==> StampsAt(jobs0, times0, query, clock, n)[u] == times0[u]
    ensures times0[u].stop.None? && u in jobs0 ==>
              var first := FirstStamp(jobs0, query, u, n);
              StampsAt(jobs0, times0, query, clock, n)[u].stop
              == if first.Some? then Some(clock(first.value)) else None
  {
    var m := 0;
    while m < n
      invariant m <= n && StopsAfter(jobs0, times0, query, clock, m, u)
    {
      StopsAfterStep(jobs0, times0, query, clock, m, u);
      m := m + 1;
    }
  }

  /** One more poll keeps `StopsAfter`. */
  lemma StopsAfterStep(jobs0: map<string, Job>, times0: map<string, Times>,
                       query: (nat, string) -> Job, clock: nat -> Tick, m: nat, u: string)
    requires u in times0 && StopsAfter(jobs0, times0, query, clock, m, u)
    ensures StopsAfter(jobs0, times0, query, clock, m + 1, u)
  {
    StampsAtStep(jobs0, times0, query, clock, m, u);
    FirstStampStep(jobs0, query, u, m);
    if u !in jobs0 {
      assert u !in PolledAt(jobs0, query, m + 1);
    } else if times0[u].stop.None? {
      StopStep(StampsAt(jobs0, times0, query, clock, m)[u].stop, StampsAt(jobs0, times0, query, clock, m + 1)[u].stop,
               FirstStamp(jobs0, query, u, m), FirstStamp(jobs0, query, u, m + 1),
               StampsOn(jobs0, query, m, u), clock, m);
    }
  }

  /** The first stamping poll below `m + 1` is the one below `m`, or else
      poll `m` when it stamps. */
  lemma FirstStampStep(jobs0: map<string, Job>, query: (nat, string) -> Job, u: string, m: nat)
    ensures var earlier := FirstStamp(jobs0, query, u, m);
            FirstStamp(jobs0, query, u, m + 1)
            == if earlier.Some? then earlier else if StampsOn(jobs0, query, m, u) then Some(m) else None
  {
    var hit := StampingPolls(jobs0, query, u);
    assert FirstStamp(jobs0, query, u, m) == FirstHit(hit, m);
    assert hit(m) == StampsOn(jobs0, query, m, u);
  }

  /** Poll `m` changes a test's times only by stamping it, when the poll
      stamps it and it has no stop yet. */
  lemma StampsAtStep(jobs0: map<string, Job>, times0: map<string, Times>,
                     query: (nat, string) -> Job, clock: nat -> Tick, m: nat, u: string)
    requires u in times0
    ensures var prev := StampsAt(jobs0, times0, query, clock, m)[u];
            && StampsAt(jobs0, times0, query, clock, m + 1)[u].start == prev.start
            && StampsAt(jobs0, times0, query, clock, m + 1)[u].stop
               == if prev.stop.None? && StampsOn(jobs0, query, m, u) then Some(clock(m)) else prev.stop
  {
  }

  /** The poll `FirstStamp` finds stamps the test and no earlier poll does;
      there is none exactly when no poll below `n` stamps it. */
  lemma FirstStampSpec(jobs0: map<string, Job>, query: (nat, string) -> Job, u: string, n: nat)
    ensures var r := FirstStamp(jobs0, query, u, n);
            && (r.Some? ==> r.value < n && StampsOn(jobs0, query, r.value, u)
                            && forall j | 0 <= j < r.value :: !StampsOn(jobs0, query, j, u))
            && (r.None? ==> forall j | 0 <= j < n :: !StampsOn(jobs0, query, j, u))
  {
    var hit := StampingPolls(jobs0, query, u);
    FirstHitSpec(hit, n);
    var r := FirstHit(hit, n);
    if r.Some? {
      assert StampsOn(jobs0, query, r.value, u) by { assert hit(r.value); }
      forall j | 0 <= j < r.value ensures !StampsOn(jobs0, query, j, u) {
        assert !hit(j);
      }
    } else {
      forall j | 0 <= j < n ensures !StampsOn(jobs0, query, j, u) {
        assert !hit(j);
      }
    }
  }

  /** The stop after poll `m`, from the stop before it, the first stamping
      poll before it, and whether poll `m` stamps. */
  lemma StopStep(before: Option<Tick>, after: Option<Tick>, earlier: Option<nat>, first: Option<nat>,
                 hitNow: bool, clock: nat -> Tick, m: nat)
    requires before == if earlier.Some? then Some(clock(earlier.value)) else None
    requires first == if earlier.Some? then earlier else if hitNow then Some(m) else None
    requires after == if before.None? && hitNow then Some(clock(m)) else before
    ensures after == if first.Some? then Some(clock(first.value)) else None
  {
  }

  /** Every printed sequence of progress lines is well formed. */
  lemma ReportsAtWellFormed(jobs0: map<string, Job>, query: (nat, string) -> Job, n: nat)
    ensures ReportsWellFormed(ReportsAt(jobs0, query, n), |jobs0|)
  {
    var m := 0;
    while m < n
      invariant m <= n && ReportsWellFormed(ReportsAt(jobs0, query, m), |jobs0|)
    {
      ReportsAtStep(jobs0, query, m);
      m := m + 1;
    }
  }

  /** Poll `m` keeps the printed lines well formed. */
  lemma ReportsAtStep(jobs0: map<string, Job>, query: (nat, string) -> Job, m: nat)
    requires ReportsWellFormed(ReportsAt(jobs0, query, m), |jobs0|)
    ensures ReportsWellFormed(ReportsAt(jobs0, query, m + 1), |jobs0|)
  {
    var p := PolledAt(jobs0, query, m + 1);
    var prev := ReportsAt(jobs0, query, m);
    if AnyActive(p) && ProgressOf(p).finished != LastFinished(prev) {
      assert |p| == |jobs0| by { assert p.Keys == jobs0.Keys; }
      ReportStep(prev, ProgressOf(p), |jobs0|);
    }
  }

  /** Every progress line counts `total` jobs with successes plus failures at
      most the finished jobs, and no two consecutive lines report the same
      finished count. */
  ghost predicate ReportsWellFormed(reports: seq<Progress>, total: nat) {
    && (forall i | 0 <= i < |reports| ::
          reports[i].total == total
          && reports[i].succeeded + reports[i].failed <= reports[i].finished <= reports[i].total)
    && (forall i, j | 0 <= i < j < |reports| && j == i + 1 :: reports[i].finished != reports[j].finished)
  }

  /** Appending a line that is well formed and differs in its finished count
      from the last one keeps the reports well formed. */
  lemma ReportStep(reports: seq<Progress>, p: Progress, total: nat)
    requires ReportsWellFormed(reports, total)
    requires p.total == total && p.succeeded + p.failed <= p.finished <= total
    requires p.finished != LastFinished(reports)
    ensures ReportsWellFormed(reports + [p], total)
  {
    var r := reports + [p];
    forall i, j | 0 <= i < j < |r| && j == i + 1 ensures r[i].finished != r[j].finished {
      if j < |reports| {
        assert r[i] == reports[i] && r[j] == reports[j];
      }
    }
  }

  /** One tick of the monitoring loop: refresh every job's status; if some
      job is still Running or Submitted, tally, stamp the newly finished jobs
      with `clock(k)`, and emit a progress line when the finished count
      differs from the previous tick's `oldNumFinished`. */
  method Poll(jobs: map<string, Job>, times: map<string, Times>, oldNumFinished: int,
              query: (nat, string) -> Job, clock: nat -> Tick, k: nat)
    returns (polled: map<string, Job>, stamped: map<string, Times>, running: bool,
             numFinished: int, line: Option<Progress>)
    requires jobs.Keys <= times.Keys
    ensures polled.Keys == jobs.Keys
    ensures forall t | t in polled :: polled[t] == query(k, jobs[t].id)
    ensures running <==> AnyActive(polled)
    ensures !running ==> stamped == times && numFinished == oldNumFinished && line.None?
    ensures running ==> StampedOnce(times, stamped, TerminalAmong(polled, polled.Keys), clock(k))
    ensures running ==> numFinished == |jobs| - |ActiveAmong(polled, polled.Keys)|
    ensures line.Some? <==> running && numFinished != oldNumFinished
    ensures line.Some? ==> line.value == ProgressOf(polled)
  {
    polled := UpdateStatus(jobs, query, k);
    running := JobsAreRunning(polled);
    stamped, numFinished, line := times, oldNumFinished, None;
    if running {
      var finished, succeeded, failed;
      finished, succeeded, failed, stamped := PollTally(polled, times, clock(k));
      assert |polled| == |jobs| by {
        assert polled.Keys == jobs.Keys;
      }
      if oldNumFinished != finished {
        line := Some(Progress(|polled|, finished, succeeded, failed));
      }
      numFinished := finished;
    }
  }

  /** One pass of the monitoring loop as the loop sees it: poll with the
      finished count of the last progress line as `old_num_finished` (the
      source only ever updates that variable to the count it has just
      printed, or leaves it equal to it), and append the line if one is
      emitted. From the state after `k` polls it reaches the state after
      `k + 1`, and it never overwrites a stop. */
  method Advance(jobs0: map<string, Job>, times0: map<string, Times>,
                 jobs: map<string, Job>, times: map<string, Times>, reports: seq<Progress>,
                 query: (nat, string) -> Job, clock: nat -> Tick, k: nat)
    returns (polled: map<string, Job>, stamped: map<string, Times>, running: bool,
             extended: seq<Progress>)
    requires jobs0.Keys <= times0.Keys
    requires jobs == PolledAt(jobs0, query, k) && times == StampsAt(jobs0, times0, query, clock, k)
    requires reports == ReportsAt(jobs0, query, k)
    ensures polled == PolledAt(jobs0, query, k + 1)
    ensures stamped == StampsAt(jobs0, times0, query, clock, k + 1)
    ensures extended == ReportsAt(jobs0, query, k + 1)
    ensures running <==> AnyActive(polled)
    ensures forall u | u in times && times[u].stop.Some? :: stamped[u] == times[u]
  {
    var numFinished, line;
    polled, stamped, running, numFinished, line := Poll(jobs, times, LastFinished(reports), query, clock, k);
    PolledAtNext(jobs0, query, k, polled);
    NextPoll(jobs0, times0, query, clock, k);
    if running {
      StampedOnceIsStamp(times, stamped, TerminalAmong(polled, polled.Keys), clock(k));
      assert |polled| == |jobs| by { assert polled.Keys == jobs.Keys; }
    }
    extended := reports;
    if line.Some? {
      extended := reports + [line.value];
    }
  }

  /** A map holding, for each test, the server's answer at poll `k` for the
      job it held after `k` polls is the job map after `k + 1` polls. */
  lemma PolledAtNext(jobs0: map<string, Job>, query: (nat, string) -> Job, k: nat, next: map<string, Job>)
    requires next.Keys == PolledAt(jobs0, query, k).Keys
    requires forall t | t in next :: next[t] == query(k, PolledAt(jobs0, query, k)[t].id)
    ensures next == PolledAt(jobs0, query, k + 1)
  {
  }

  /** Poll `k` in terms of the job map it produces: it stamps and prints
      only when some job is still active. */
  lemma NextPoll(jobs0: map<string, Job>, times0: map<string, Times>, query: (nat, string) -> Job,
                 clock: nat -> Tick, k: nat)
    ensures var p := PolledAt(jobs0, query, k + 1);
            var before := StampsAt(jobs0, times0, query, clock, k);
            var printed := ReportsAt(jobs0, query, k);
            && StampsAt(jobs0, times0, query, clock, k + 1)
               == (if AnyActive(p) then Stamp(before, TerminalAmong(p, p.Keys), clock(k)) else before)
            && ReportsAt(jobs0, query, k + 1)
               == (if AnyActive(p) && ProgressOf(p).finished != LastFinished(printed) then printed + [ProgressOf(p)] else printed)
  {
  }

  /** Each of the first `n` polls left some job active. */
  ghost predicate ActiveThrough(jobs0: map<string, Job>, query: (nat, string) -> Job, n: nat) {
    forall k | 0 < k <= n :: AnyActive(PolledAt(jobs0, query, k))
  }

  lemma ActiveThroughStep(jobs0: map<string, Job>, query: (nat, string) -> Job, n: nat)
    requires ActiveThrough(jobs0, query, n) && AnyActive(PolledAt(jobs0, query, n + 1))
    ensures ActiveThrough(jobs0, query, n + 1)
  {
  }

  /** The monitoring loop: poll until no job is active, collecting the
      progress lines. The source loops without bound; here at most
      `maxPolls` polls are made, and `settled` tells whether the loop ended
      because no job was active. The final jobs, stops and lines are those
      after `polls` polls, and every earlier poll left some job active. */
  method Monitor(jobs0: map<string, Job>, times0: map<string, Times>,
                 query: (nat, string) -> Job, clock: nat -> Tick, maxPolls: nat)
    returns (jobs: map<string, Job>, times: map<string, Times>, polls: nat,
             settled: bool, reports: seq<Progress>)
    requires jobs0.Keys <= times0.Keys
    ensures polls <= maxPolls
    ensures jobs == PolledAt(jobs0, query, polls)
    ensures times == StampsAt(jobs0, times0, query, clock, polls)
    ensures reports == ReportsAt(jobs0, query, polls)
    ensures forall k | 0 < k < polls :: AnyActive(PolledAt(jobs0, query, k))
    ensures settled ==> polls > 0 && !AnyActive(jobs)
    ensures !settled ==> polls == maxPolls && (polls > 0 ==> AnyActive(jobs))
    ensures ReportsWellFormed(reports, |jobs0|)
  {
    jobs, times := jobs0, times0;
    polls, settled, reports := 0, false, [];
    while polls < maxPolls
      invariant polls <= maxPolls
      invariant jobs == PolledAt(jobs0, query, polls)
      invariant times == StampsAt(jobs0, times0, query, clock, polls)
      invariant reports == ReportsAt(jobs0, query, polls)
      invariant ActiveThrough(jobs0, query, polls)
    {
      var running;
      jobs, times, running, reports := Advance(jobs0, times0, jobs, times, reports, query, clock, polls);
      if !running {
        polls, settled := polls + 1, true;
        break;
      }
      ActiveThroughStep(jobs0, query, polls);
      polls := polls + 1;
    }
    ReportsAtWellFormed(jobs0, query, polls);
  }

  /** A job that is not active never blocks the loop: once no job is
      Running or Submitted the status check answers false, whatever other
      strings the statuses hold. */
  lemma UnknownStatusEndsPolling(jobs: map<string, Job>)
    requires forall t | t in jobs :: jobs[t].status != "Running" && jobs[t].status != "Submitted"
    ensures !AnyActive(jobs)
    ensures ActiveAmong(jobs, jobs.Keys) == {}
  {
  }

  /** The three tally sets of a poll are disjoint parts of the tests, so
      successes plus failures never exceed the finished jobs. */
  lemma {:induction false} TallyBounds(jobs: map<string, Job>)
    ensures |WithStatusAmong(jobs, jobs.Keys, "Succeeded")| + |WithStatusAmong(jobs, jobs.Keys, "Failed")|
            <= |jobs| - |ActiveAmong(jobs, jobs.Keys)|
  {
    var s := WithStatusAmong(jobs, jobs.Keys, "Succeeded");
    var f := WithStatusAmong(jobs, jobs.Keys, "Failed");
    var a := ActiveAmong(jobs, jobs.Keys);
    assert s !! f && s !! a && f !! a;
    assert |s + f + a| == |s| + |f| + |a|;
    SubsetCard(s + f + a, jobs.Keys);
  }
}
