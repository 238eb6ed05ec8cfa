/**
 * The driver's verdict: after the jobs have settled, every test whose job
 * Succeeded has its outputs located and compared, and the exit status is 1
 * as soon as one test failed or had a mismatching output, 0 otherwise.
 *
 * `RunSuite` strings the stages together in the source's order: dispatch,
 * monitoring (only when some test was dispatched), the final tally, and the
 * verdict. The oracles of the stages are its parameters.
 */
module Suite {
  import opened Wrappers
  import opened Jobs
  import opened Outputs
  import opened Dispatch

  /** A test passes when its job Succeeded and none of its outputs
      mismatches. */
  predicate Passes(t: string, jobs: map<string, Job>, inputs: map<string, string>,
                   listBlobs: (string, string) -> seq<Blob>, readLines: string -> seq<string>,
                   tool: (Comparator, string, string) -> int)
    requires t in jobs && t in inputs
  {
    && jobs[t].status == "Succeeded"
    && |MismatchedNames(FoundOutputs(inputs[t], ExpectedBucket, ActualBucket, listBlobs, readLines), tool)| == 0
  }

  /** The check of one test: a succeeded job whose outputs, once found,
      compare without mismatch. */
  method CheckTest(t: string, jobs: map<string, Job>, inputs: map<string, string>,
                   listBlobs: (string, string) -> seq<Blob>, readLines: string -> seq<string>,
                   tool: (Comparator, string, string) -> int)
    returns (pass: bool)
    requires t in jobs && t in inputs
    ensures pass <==> Passes(t, jobs, inputs, listBlobs, readLines, tool)
  {
    if jobs[t].status == "Succeeded" {
      var outs := FindOutputs(inputs[t], ExpectedBucket, ActualBucket, listBlobs, readLines);
      var numMismatch := CompareOutputs(outs, tool);
      pass := numMismatch == 0;
    } else {
      pass := false;
    }
  }

  /** The verdict loop: a test whose job did not succeed sets the exit
      status to 1; a succeeded test has its outputs found and compared, and
      sets it to 1 when any output mismatches. The status is 0 exactly when
      every test passes, which holds trivially when there is no test. */
  method Verdict(jobs: map<string, Job>, inputs: map<string, string>,
                 listBlobs: (string, string) -> seq<Blob>, readLines: string -> seq<string>,
                 tool: (Comparator, string, string) -> int)
    returns (ret: int)
    requires jobs.Keys <= inputs.Keys
    ensures ret == 0 || ret == 1
    ensures ret == 0 <==> forall t | t in jobs :: Passes(t, jobs, inputs, listBlobs, readLines, tool)
  {
    ret := 0;
    var done: set<string> := {};
    while done != jobs.Keys
      invariant done <= jobs.Keys
      invariant ret == 0 || ret == 1
      invariant ret == 0 <==> forall t | t in done :: Passes(t, jobs, inputs, listBlobs, readLines, tool)
      decreases jobs.Keys - done
    {
      assert !(jobs.Keys <= done);
      var t :| t in jobs && t !in done;
      var pass := CheckTest(t, jobs, inputs, listBlobs, readLines, tool);
      if !pass {
        ret := 1;
      }
      done := done + {t};
    }
  }

  /** What the stages after dispatch promise, starting from the dispatched
      `jobs0` and `times0`: the jobs are the server's answers after `polls`
      polls, every poll before the last left some job active, and, when the
      jobs settled, the last poll left none active, every job has a stop
      (the polls' stamps kept, `finishedAt` on the rest), and the status is
      0 exactly when every job passes. When they did not settle within
      `maxPolls` polls there is no status. */
  ghost predicate Settled(jobs0: map<string, Job>, times0: map<string, Times>, inputs: map<string, string>,
                          query: (nat, string) -> Job, pollClock: nat -> Tick, finishedAt: Tick, maxPolls: nat,
                          listBlobs: (string, string) -> seq<Blob>, readLines: string -> seq<string>,
                          tool: (Comparator, string, string) -> int,
                          jobs: map<string, Job>, times: map<string, Times>, polls: nat, ret: Option<int>)
    requires jobs0.Keys == inputs.Keys
  {
    var stamps := StampsAt(jobs0, times0, query, pollClock, polls);
    && polls <= maxPolls
    && jobs == PolledAt(jobs0, query, polls)
    && (forall k | 0 < k < polls :: AnyActive(PolledAt(jobs0, query, k)))
    && (ret.None? ==> polls == maxPolls && (polls > 0 ==> AnyActive(jobs)) && times == stamps)
    && (ret.Some? ==> polls > 0 && !AnyActive(jobs))
    && (ret.Some? ==> StampedOnce(stamps, times, jobs.Keys, finishedAt))
    && (ret.Some? ==> forall t | t in times :: times[t].stop.Some?)
    && (ret.Some? ==> ret.value == 0 || ret.value == 1)
    && (ret.Some? ==> (ret.value == 0 <==> forall t | t in jobs :: Passes(t, jobs, inputs, listBlobs, readLines, tool)))
  }

  /** The stages after dispatch: monitor the jobs with at most `maxPolls`
      polls, tally them with the clock reading `finishedAt`, and compute the
      exit status; none when the jobs were still active after `maxPolls`
      polls (the source would keep polling). */
  method Settle(jobs0: map<string, Job>, times0: map<string, Times>, inputs: map<string, string>,
                query: (nat, string) -> Job, pollClock: nat -> Tick, finishedAt: Tick, maxPolls: nat,
                listBlobs: (string, string) -> seq<Blob>, readLines: string -> seq<string>,
                tool: (Comparator, string, string) -> int)
    returns (jobs: map<string, Job>, times: map<string, Times>, polls: nat, ret: Option<int>)
    requires jobs0.Keys == times0.Keys == inputs.Keys
    ensures jobs.Keys == times.Keys == inputs.Keys
    ensures Settled(jobs0, times0, inputs, query, pollClock, finishedAt, maxPolls, listBlobs, readLines, tool,
                    jobs, times, polls, ret)
  {
    var settled, reports;
    jobs, times, polls, settled, reports := Monitor(jobs0, times0, query, pollClock, maxPolls);
    if !settled {
      return jobs, times, polls, None;
    }
    var numFinished, numSucceeded, numFailed;
    numFinished, numSucceeded, numFailed, times := FinalTally(jobs, times, finishedAt);
    var status := Verdict(jobs, inputs, listBlobs, readLines, tool);
    ret := Some(status);
  }

  /** A whole run: dispatch the inputs, then, when some test was dispatched,
      monitor, tally and judge them. The dispatched state is the one
      `DispatchTests` promises, so the recorded tests are exactly the names
      of the dispatchable inputs; with no test dispatched nothing is polled
      and the status is 0; otherwise the later stages keep their promise
      from the dispatched state. */
  method RunSuite(inputJsons: seq<string>, disabled: set<string>, walk: seq<WalkEntry>,
                  submit: (string, string, string, string) -> Job, dispatchClock: nat -> Tick,
                  query: (nat, string) -> Job, pollClock: nat -> Tick, finishedAt: Tick, maxPolls: nat,
                  listBlobs: (string, string) -> seq<Blob>, readLines: string -> seq<string>,
                  tool: (Comparator, string, string) -> int)
    returns (dispatched: map<string, Job>, started: map<string, Times>, inputs: map<string, string>,
             jobs: map<string, Job>, times: map<string, Times>, polls: nat, ret: Option<int>)
    ensures DispatchedState(inputJsons, disabled, walk, submit, dispatchClock, dispatched, started, inputs)
    ensures forall t | t in inputs ::
              inputs[t] in inputJsons && Dispatchable(inputs[t], disabled, walk) && TestOf(inputs[t]) == t
    ensures forall i | 0 <= i < |inputJsons| :: Dispatchable(inputJsons[i], disabled, walk) ==> TestOf(inputJsons[i]) in inputs
    ensures jobs.Keys == times.Keys == inputs.Keys
    ensures |dispatched| == 0 ==> jobs == dispatched && times == started && polls == 0 && ret == Some(0)
    ensures |dispatched| > 0 ==> Settled(dispatched, started, inputs, query, pollClock, finishedAt, maxPolls,
                                         listBlobs, readLines, tool, jobs, times, polls, ret)
  {
    dispatched, started, inputs := DispatchTests(inputJsons, disabled, walk, submit, dispatchClock);
    DispatchedStateSpec(inputJsons, disabled, walk, submit, dispatchClock, dispatched, started, inputs);
    if |dispatched| == 0 {
      return dispatched, started, inputs, dispatched, started, 0, Some(0);
    }
    jobs, times, polls, ret := Settle(dispatched, started, inputs, query, pollClock, finishedAt, maxPolls,
                                      listBlobs, readLines, tool);
  }
}
