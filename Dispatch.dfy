/**
 * Test selection and dispatch: every enabled input JSON whose workflow file
 * can be found is submitted to the workflow server, and the job record, the
 * submission time and the input path are stored under the test's name.
 *
 * The file walk of the `wdl/` directory is a parameter (the files `os.walk`
 * reports, in walk order), the server's submission endpoint is a parameter
 * `submit(wdl, input, options, dependencies)`, and the wall clock is a
 * parameter `clock(i)`: the tick read when the i-th input is dispatched.
 */
module Dispatch {
  import opened Wrappers
  import opened Text
  import opened Jobs

  /** One file the walk reports: the directory it was found in and its name. */
  datatype WalkEntry = WalkEntry(root: string, file: string)

  const CachingOptions: string := "resources/workflow_options/ci.json"
  const NoCachingOptions: string := "resources/workflow_options/ci.fresh.run.json"
  const DependenciesZip: string := "wdl/lr_wdls.zip"

  /** The path of a walked file, with runs of slashes collapsed. */
  function WalkPath(w: WalkEntry): string {
    CollapseSlashes(w.root + "/" + w.file)
  }

  /** The position of the first walked file whose path ends with `wdl`. */
  function FirstMatch(walk: seq<WalkEntry>, wdl: string): (r: Option<nat>)
    ensures r.Some? ==> r.value < |walk| && EndsWith(WalkPath(walk[r.value]), wdl)
                        && forall j :: 0 <= j < r.value ==> !EndsWith(WalkPath(walk[j]), wdl)
    ensures r.None? ==> forall j :: 0 <= j < |walk| ==> !EndsWith(WalkPath(walk[j]), wdl)
    decreases |walk|
  {
    if |walk| == 0 then None
    else if EndsWith(WalkPath(walk[0]), wdl) then Some(0)
    else
      match FirstMatch(walk[1..], wdl)
      case None => None
      case Some(i) => Some(i + 1)
  }

  /** `find_wdl_path(wdl)`: the collapsed path of the first walked file that
      ends with `wdl` (by suffix, so `wdl/MyFoo.wdl` answers for `Foo.wdl`),
      or nothing. */
  function FindWdlPath(walk: seq<WalkEntry>, wdl: string): Option<string> {
    match FirstMatch(walk, wdl)
    case None => None
    case Some(i) => Some(WalkPath(walk[i]))
  }

  /** The path found ends with the requested name and has no doubled
      slash; some walked file ends with it exactly when a path is found,
      and the path found is the first such file's. */
  lemma FindWdlPathSpec(walk: seq<WalkEntry>, wdl: string)
    ensures var r := FindWdlPath(walk, wdl);
            && (r.Some? ==> EndsWith(r.value, wdl) && NoDoubleSlash(r.value))
            && (r.Some? <==> exists i :: 0 <= i < |walk| && EndsWith(WalkPath(walk[i]), wdl))
            && forall i | 0 <= i < |walk| && EndsWith(WalkPath(walk[i]), wdl) ::
                 r.Some? && (forall j | 0 <= j < i :: !EndsWith(WalkPath(walk[j]), wdl))
                 ==> r.value == WalkPath(walk[i])
  {
    match FirstMatch(walk, wdl)
    case None =>
    case Some(i) =>
      CollapseSlashesSpec(walk[i].root + "/" + walk[i].file);
      forall k | 0 <= k < |walk| && EndsWith(WalkPath(walk[k]), wdl)
                 && forall j | 0 <= j < k :: !EndsWith(WalkPath(walk[j]), wdl)
        ensures k == i
      {
      }
  }

  /** A walked file whose own name ends with `wdl` has a collapsed path
      ending with `wdl`, whatever its directory. */
  /** The walked path of a file under a root with no doubled slash is the
      root and the file joined by exactly one slash; so the top directory
      `wdl/` gives `wdl/Foo.wdl`, not `wdl//Foo.wdl`. */
  lemma WalkPathJoin(w: WalkEntry)
    requires NoDoubleSlash(w.root) && '/' !in w.file
    ensures WalkPath(w) == (if EndsWith(w.root, "/") then w.root else w.root + "/") + w.file
  {
    if EndsWith(w.root, "/") {
      var x := w.root[..|w.root| - 1];
      assert w.root == x + "/";
      assert w.root + "/" + w.file == x + "//" + w.file;
      CollapseSlashesShrink(x, w.file);
      assert x + "/" + w.file == w.root + w.file;
      CollapseSlashesAppend(w.root, w.file);
      CollapseSlashesIdempotent(w.root);
    } else {
      var front := w.root + "/";
      assert NoDoubleSlash(front) by {
        forall i | 0 <= i < |front| - 1 ensures !(front[i] == '/' && front[i + 1] == '/') {
          if i < |w.root| - 1 {
            assert front[i] == w.root[i] && front[i + 1] == w.root[i + 1];
          } else {
            assert front[i] == w.root[|w.root| - 1];
            assert w.root[|w.root| - 1..] != "/";
          }
        }
      }
      CollapseSlashesAppend(front, w.file);
      CollapseSlashesIdempotent(front);
    }
  }

  lemma WalkPathEndsWith(w: WalkEntry, wdl: string)
    requires '/' !in w.file && EndsWith(w.file, wdl)
    ensures EndsWith(WalkPath(w), wdl)
  {
    var front := w.root + "/";
    assert w.root + "/" + w.file == front + w.file;
    CollapseSlashesAppend(front, w.file);
    var p := CollapseSlashes(front) + w.file;
    assert p[|p| - |wdl|..] == w.file[|w.file| - |wdl|..];
  }

  /** When some walked file is named with the ending `wdl`, a workflow path
      is found, and it ends with `wdl`. */
  lemma WalkedFileFound(walk: seq<WalkEntry>, i: nat, wdl: string)
    requires i < |walk| && '/' !in walk[i].file && EndsWith(walk[i].file, wdl)
    ensures FindWdlPath(walk, wdl).Some? && EndsWith(FindWdlPath(walk, wdl).value, wdl)
  {
    WalkPathEndsWith(walk[i], wdl);
    FindWdlPathSpec(walk, wdl);
  }

  /** The test name of an input: its base name. */
  function TestOf(inputJson: string): string {
    Basename(inputJson)
  }

  /** The workflow file a test asks for: its name up to the first dot, plus
      ".wdl". */
  function WdlName(test: string): (r: string)
    ensures EndsWith(r, ".wdl") && '.' !in r[..|r| - 4]
    ensures StartsWith(test, r[..|r| - 4])
    ensures |r| - 4 < |test| ==> test[|r| - 4] == '.'
  {
    var stem := FirstSegment(test);
    var r := stem + ".wdl";
    assert r[..|r| - 4] == stem;
    r
  }

  /** The options file: no call caching when the input path contains
      "Download" (matched case-sensitively), caching otherwise. */
  function OptionsFile(inputJson: string): string {
    if Contains(inputJson, "Download") then NoCachingOptions else CachingOptions
  }

  /** An input is dispatched when it is not disabled and its workflow file
      is found. */
  predicate Dispatchable(inputJson: string, disabled: set<string>, walk: seq<WalkEntry>) {
    inputJson !in disabled && FindWdlPath(walk, WdlName(TestOf(inputJson))).Some?
  }

  /** An input is dispatched exactly when it is not disabled and some
      walked file's collapsed path ends with the workflow name it asks for. */
  lemma DispatchableSpec(inputJson: string, disabled: set<string>, walk: seq<WalkEntry>)
    ensures Dispatchable(inputJson, disabled, walk)
            <==> inputJson !in disabled
                 && exists i :: 0 <= i < |walk| && EndsWith(WalkPath(walk[i]), WdlName(TestOf(inputJson)))
  {
    FindWdlPathSpec(walk, WdlName(TestOf(inputJson)));
  }

  /** The position of the last dispatched input with test name `t`: the one
      whose entries survive in the dicts. */
  function LastDispatch(inputJsons: seq<string>, disabled: set<string>, walk: seq<WalkEntry>, t: string)
    : (r: Option<nat>)
    ensures r.Some? ==> r.value < |inputJsons|
    decreases |inputJsons|
  {
    if |inputJsons| == 0 then None
    else
      var last := inputJsons[|inputJsons| - 1];
      if Dispatchable(last, disabled, walk) && TestOf(last) == t then Some(|inputJsons| - 1)
      else LastDispatch(inputJsons[..|inputJsons| - 1], disabled, walk, t)
  }

  /** The last dispatch is a dispatchable input with that test name that no
      later input repeats, and there is none exactly when no dispatchable
      input has that name. */
  lemma {:induction false} LastDispatchSpec(inputJsons: seq<string>, disabled: set<string>,
                                            walk: seq<WalkEntry>, t: string)
    ensures var r := LastDispatch(inputJsons, disabled, walk, t);
            && (r.Some? ==> Dispatchable(inputJsons[r.value], disabled, walk) && TestOf(inputJsons[r.value]) == t)
            && (r.Some? ==> forall j | r.value < j < |inputJsons| ::
                              !(Dispatchable(inputJsons[j], disabled, walk) && TestOf(inputJsons[j]) == t))
            && (r.None? ==> forall i | 0 <= i < |inputJsons| && Dispatchable(inputJsons[i], disabled, walk)
                                     :: TestOf(inputJsons[i]) != t)
    decreases |inputJsons|
  {
    if |inputJsons| > 0 {
      var prefix := inputJsons[..|inputJsons| - 1];
      LastDispatchSpec(prefix, disabled, walk, t);
      forall i | 0 <= i < |prefix| ensures prefix[i] == inputJsons[i] { }
    }
  }

  /** Test `t` holds the job, start time and input of its last dispatch
      among `inputJsons`. */
  ghost predicate Recorded(inputJsons: seq<string>, disabled: set<string>, walk: seq<WalkEntry>,
                           submit: (string, string, string, string) -> Job, clock: nat -> Tick,
                           t: string, job: Job, time: Times, input: string) {
    var r := LastDispatch(inputJsons, disabled, walk, t);
    && r.Some?
    && input == inputJsons[r.value]
    && time == Times(clock(r.value), None)
    && FindWdlPath(walk, WdlName(t)).Some?
    && job == submit(FindWdlPath(walk, WdlName(t)).value, input, OptionsFile(input), DependenciesZip)
  }

  /** The dicts after the loop over `inputJsons`: exactly the dispatched
      tests, each holding the job, start time and input of its last
      dispatch. */
  ghost predicate DispatchedState(inputJsons: seq<string>, disabled: set<string>, walk: seq<WalkEntry>,
                                  submit: (string, string, string, string) -> Job, clock: nat -> Tick,
                                  jobs: map<string, Job>, times: map<string, Times>, inputs: map<string, string>) {
    && jobs.Keys == times.Keys == inputs.Keys
    && (forall t :: t in inputs <==> LastDispatch(inputJsons, disabled, walk, t).Some?)
    && forall t | t in inputs :: Recorded(inputJsons, disabled, walk, submit, clock, t, jobs[t], times[t], inputs[t])
  }

  /** A record stays valid when an input that does not change the test's
      last dispatch is appended. */
  lemma RecordedKept(s: seq<string>, disabled: set<string>, walk: seq<WalkEntry>,
                     submit: (string, string, string, string) -> Job, clock: nat -> Tick,
                     t: string, job: Job, time: Times, input: string)
    requires |s| > 0
    requires LastDispatch(s, disabled, walk, t) == LastDispatch(s[..|s| - 1], disabled, walk, t)
    requires Recorded(s[..|s| - 1], disabled, walk, submit, clock, t, job, time, input)
    ensures Recorded(s, disabled, walk, submit, clock, t, job, time, input)
  {
    var k := LastDispatch(s, disabled, walk, t).value;
    assert s[..|s| - 1][k] == s[k];
  }

  /** Appending an input that is not dispatched leaves the dicts valid. */
  lemma DispatchSkip(s: seq<string>, disabled: set<string>, walk: seq<WalkEntry>,
                     submit: (string, string, string, string) -> Job, clock: nat -> Tick,
                     jobs: map<string, Job>, times: map<string, Times>, inputs: map<string, string>)
    requires |s| > 0 && !Dispatchable(s[|s| - 1], disabled, walk)
    requires DispatchedState(s[..|s| - 1], disabled, walk, submit, clock, jobs, times, inputs)
    ensures DispatchedState(s, disabled, walk, submit, clock, jobs, times, inputs)
  {
    forall t | t in inputs
      ensures Recorded(s, disabled, walk, submit, clock, t, jobs[t], times[t], inputs[t])
    {
      RecordedKept(s, disabled, walk, submit, clock, t, jobs[t], times[t], inputs[t]);
    }
  }

  /** After appending a dispatched input, its test has an entry and every
      other test keeps its entry and its record. */
  lemma DispatchRecordOthers(s: seq<string>, disabled: set<string>, walk: seq<WalkEntry>,
                             submit: (string, string, string, string) -> Job, clock: nat -> Tick,
                             jobs: map<string, Job>, times: map<string, Times>, inputs: map<string, string>)
    requires |s| > 0 && Dispatchable(s[|s| - 1], disabled, walk)
    requires DispatchedState(s[..|s| - 1], disabled, walk, submit, clock, jobs, times, inputs)
    ensures forall t :: t in inputs || t == TestOf(s[|s| - 1]) <==> LastDispatch(s, disabled, walk, t).Some?
    ensures forall t | t in inputs && t != TestOf(s[|s| - 1]) ::
              Recorded(s, disabled, walk, submit, clock, t, jobs[t], times[t], inputs[t])
  {
    forall t | t in inputs && t != TestOf(s[|s| - 1])
      ensures Recorded(s, disabled, walk, submit, clock, t, jobs[t], times[t], inputs[t])
    {
      RecordedKept(s, disabled, walk, submit, clock, t, jobs[t], times[t], inputs[t]);
    }
  }

  /** A dispatched input appended last is the record of its test. */
  lemma RecordedNew(s: seq<string>, disabled: set<string>, walk: seq<WalkEntry>,
                    submit: (string, string, string, string) -> Job, clock: nat -> Tick)
    requires |s| > 0 && Dispatchable(s[|s| - 1], disabled, walk)
    ensures var input := s[|s| - 1];
            var t := TestOf(input);
            Recorded(s, disabled, walk, submit, clock, t,
                     submit(FindWdlPath(walk, WdlName(t)).value, input, OptionsFile(input), DependenciesZip),
                     Times(clock(|s| - 1), None), input)
  {
  }

  /** The dicts with one entry updated satisfy the state predicate when the
      updated entry and all the others are records. */
  lemma DispatchedStateUpdate(s: seq<string>, disabled: set<string>, walk: seq<WalkEntry>,
                              submit: (string, string, string, string) -> Job, clock: nat -> Tick,
                              jobs: map<string, Job>, times: map<string, Times>, inputs: map<string, string>,
                              t0: string, job: Job, time: Times, input: string)
    requires jobs.Keys == times.Keys == inputs.Keys
    requires forall t :: t in inputs || t == t0 <==> LastDispatch(s, disabled, walk, t).Some?
    requires forall t | t in inputs && t != t0 :: Recorded(s, disabled, walk, submit, clock, t, jobs[t], times[t], inputs[t])
    requires Recorded(s, disabled, walk, submit, clock, t0, job, time, input)
    ensures DispatchedState(s, disabled, walk, submit, clock, jobs[t0 := job], times[t0 := time], inputs[t0 := input])
  {
  }

  /** Appending a dispatched input overwrites its test's entries with the
      new submission and keeps the dicts valid. */
  lemma DispatchRecord(s: seq<string>, disabled: set<string>, walk: seq<WalkEntry>,
                       submit: (string, string, string, string) -> Job, clock: nat -> Tick,
                       jobs: map<string, Job>, times: map<string, Times>, inputs: map<string, string>)
    requires |s| > 0 && Dispatchable(s[|s| - 1], disabled, walk)
    requires DispatchedState(s[..|s| - 1], disabled, walk, submit, clock, jobs, times, inputs)
    ensures var input := s[|s| - 1];
            var t := TestOf(input);
            DispatchedState(s, disabled, walk, submit, clock,
                            jobs[t := submit(FindWdlPath(walk, WdlName(t)).value, input,
                                             OptionsFile(input), DependenciesZip)],
                            times[t := Times(clock(|s| - 1), None)], inputs[t := input])
  {
    var input := s[|s| - 1];
    var t0 := TestOf(input);
    var job := submit(FindWdlPath(walk, WdlName(t0)).value, input, OptionsFile(input), DependenciesZip);
    DispatchRecordOthers(s, disabled, walk, submit, clock, jobs, times, inputs);
    RecordedNew(s, disabled, walk, submit, clock);
    DispatchedStateUpdate(s, disabled, walk, submit, clock, jobs, times, inputs, t0, job, Times(clock(|s| - 1), None), input);
  }

  /** The dispatch loop: for every input in order, skip it if disabled or
      if its workflow file is missing; otherwise submit it with the chosen
      options and record the job, the start time `clock(i)` and no stop
      time, and the input, under its test name. */
  method DispatchTests(inputJsons: seq<string>, disabled: set<string>, walk: seq<WalkEntry>,
                       submit: (string, string, string, string) -> Job, clock: nat -> Tick)
    returns (jobs: map<string, Job>, times: map<string, Times>, inputs: map<string, string>)
    ensures DispatchedState(inputJsons, disabled, walk, submit, clock, jobs, times, inputs)
  {
    jobs, times, inputs := map[], map[], map[];
    var i := 0;
    while i < |inputJsons|
      invariant 0 <= i <= |inputJsons|
      invariant DispatchedState(inputJsons[..i], disabled, walk, submit, clock, jobs, times, inputs)
    {
      var inputJson := inputJsons[i];
      ghost var s := inputJsons[..i + 1];
      assert s[..i] == inputJsons[..i] && s[i] == inputJson;
      if Dispatchable(inputJson, disabled, walk) {
        DispatchRecord(s, disabled, walk, submit, clock, jobs, times, inputs);
      } else {
        DispatchSkip(s, disabled, walk, submit, clock, jobs, times, inputs);
      }
      if inputJson !in disabled {
        var test := Basename(inputJson);
        var wdlPath := FindWdlPath(walk, WdlName(test));
        if wdlPath.Some? {
          var options := if Contains(inputJson, "Download") then NoCachingOptions else CachingOptions;
          var j := submit(wdlPath.value, inputJson, options, DependenciesZip);
          jobs := jobs[test := j];
          times := times[test := Times(clock(i), None)];
          inputs := inputs[test := inputJson];
        }
      }
      i := i + 1;
    }
    assert inputJsons[..i] == inputJsons;
  }

  /** Consequences of the dispatch for each recorded test: its input is one
      of the inputs and is not disabled, the test is the input's base name,
      its workflow file was found, its job is the server's answer to the
      submission, and it has no stop time yet; and every enabled input whose
      workflow file is found has an entry. */
  lemma DispatchedStateSpec(inputJsons: seq<string>, disabled: set<string>, walk: seq<WalkEntry>,
                            submit: (string, string, string, string) -> Job, clock: nat -> Tick,
                            jobs: map<string, Job>, times: map<string, Times>, inputs: map<string, string>)
    requires DispatchedState(inputJsons, disabled, walk, submit, clock, jobs, times, inputs)
    ensures forall t | t in inputs ::
              && inputs[t] in inputJsons && inputs[t] !in disabled && TestOf(inputs[t]) == t
              && FindWdlPath(walk, WdlName(t)).Some?
              && times[t].stop.None?
    ensures forall i | 0 <= i < |inputJsons| ::
              inputJsons[i] !in disabled && FindWdlPath(walk, WdlName(TestOf(inputJsons[i]))).Some?
              ==> TestOf(inputJsons[i]) in jobs
  {
    forall t | t in inputs
      ensures inputs[t] in inputJsons && inputs[t] !in disabled && TestOf(inputs[t]) == t
              && FindWdlPath(walk, WdlName(t)).Some?
    {
      LastDispatchSpec(inputJsons, disabled, walk, t);
    }
    forall i | 0 <= i < |inputJsons| && inputJsons[i] !in disabled
               && FindWdlPath(walk, WdlName(TestOf(inputJsons[i]))).Some?
      ensures TestOf(inputJsons[i]) in jobs
    {
      assert Dispatchable(inputJsons[i], disabled, walk);
      var t := TestOf(inputJsons[i]);
      LastDispatchSpec(inputJsons, disabled, walk, t);
    }
  }

  /** The options file is the no-caching one exactly when "Download" occurs
      in the input path; a path without a capital D, such as
      "test/test_json/sample1.download.json", gets the caching options. */
  lemma OptionsFileSpec(inputJson: string)
    ensures OptionsFile(inputJson) == NoCachingOptions <==> Contains(inputJson, "Download")
    ensures 'D' !in inputJson ==> OptionsFile(inputJson) == CachingOptions
  {
    if 'D' !in inputJson && Contains(inputJson, "Download") {
      ContainsChars(inputJson, "Download", 'D');
    }
  }

  /** An input path with "Download" anywhere in it gets the no-caching
      options. */
  lemma DownloadDisablesCaching(before: string, after: string)
    ensures OptionsFile(before + "Download" + after) == NoCachingOptions
  {
    var s := before + "Download" + after;
    assert s[|before|..|before| + 8] == "Download";
    ContainsAt(s, "Download", |before|);
  }
}
