# Verified model of the long-read pipelines' CI test driver

`scripts/ci/run_test_suite.py` drives the continuous-integration runs of the
long-read WDL pipelines. It does four things:

- It dispatches every enabled test input to a Cromwell server, using the
  workflow file the input's name asks for.
- It polls the jobs until none is Running or Submitted, keeping a tally and
  write-once stop times.
- For every succeeded job it reconciles the expected outputs in one bucket
  with the actual outputs in another. It finds outputs by base name and
  compares checksums, then file contents.
- It exits 0 only when every job succeeded with no mismatching output.

The model is split into modules:

- `Text` models the Python string operations the driver relies on, with
  their exact semantics:
  - `str.strip` with the `str.isspace` whitespace set;
  - `re.sub("[\",]+", "")`, `re.split(":\\s+")`, `re.sub("/+", "/")` and
    `re.sub("/$", "")`;
  - `str.replace`, `os.path.basename`, `os.path.splitext` and `split('.')[0]`.
- `Jobs` holds the job-status state machine, the per-poll and final
  tallies, and the monitoring loop.
- `Outputs` holds `find_outputs`, `compare_outputs` and the extension
  dispatch of `compare_contents`.
- `Dispatch` holds `find_wdl_path` and the dispatch loop.
- `Suite` holds the exit-status computation and the whole run.
- `Wrappers` holds the optional-value type and a set-size lemma.

The dicts the script mutates (`jobs`, `times`, `input`, `outs`) are maps.
The methods return them updated, and their loops carry the invariants.
Each loop is proved against a specification function, or against a
predicate on the state:

- `find_outputs` against `FoundOutputs`;
- the dispatch loop against `DispatchedState`;
- the polling loop against `PolledAt`, `StampsAt` and `ReportsAt`, the
  jobs, stop times and progress lines after a given number of polls.

Everything the script asks of the outside world is a parameter:

- the server's status answers (`query(k, id)`) and submission answers
  (`submit(wdl, input, options, dependencies)`);
- the bucket listings (`listBlobs(bucket, prefix)`);
- the lines of an input file (`readLines(path)`);
- the `os.walk` of `wdl/`, as a sequence of (root, file);
- the external comparison tools (`tool(comparator, exp, act)`, an exit
  status);
- the wall clock, as ticks (`clock(i)`).

Two consequences of the script's exact behaviour are proved. An unknown
extension counts as a mismatch: `compare_contents` returns 1 for it (line
225) and `compare_outputs` counts any result other than 0 (line 251).
"Download" is matched case-sensitively (line 300), so an input such as
`sample1.download.json` keeps the caching options.

## Model

| member | source | states |
|---|---|---|
| Jobs.JobsAreRunning | scripts/ci/run_test_suite.py:136-143 | the flag loop answers true exactly when some job's status is "Running" or "Submitted" |
| Jobs.UnknownStatusEndsPolling | scripts/ci/run_test_suite.py:140 | any status strings other than Running/Submitted, unknown ones included, make the running test false, so polling ends |
| Jobs.UpdateStatus | scripts/ci/run_test_suite.py:128-133 | the new dict has exactly the old test keys, each holding the server's fresh answer for that job's id |
| Jobs.StampIfUnset | scripts/ci/run_test_suite.py:329-330 | writes the stop time only when it is unset; starts and existing stops are kept |
| Jobs.StampStep | scripts/ci/run_test_suite.py:324-334 | stamping one more test extends a write-once stamping of a set of tests to that set plus the test |
| Jobs.PollTally | scripts/ci/run_test_suite.py:320-334 | finished = number of jobs minus the active ones; succeeded and failed are the counts of those statuses; succeeded + failed <= finished <= number of jobs; exactly the Failed/Succeeded jobs lacking a stop get the stamp, nothing else changes |
| Jobs.TallyBounds | scripts/ci/run_test_suite.py:320-334 | the succeeded, failed and active sets are disjoint, so succeeded + failed never exceeds the finished count |
| Jobs.ProgressOf | scripts/ci/run_test_suite.py:320-339 | a progress line counts all jobs as its total and all but the active ones as finished, and succeeded + failed <= finished <= total |
| Jobs.PolledAt | scripts/ci/run_test_suite.py:316 | every poll keeps the set of tests |
| Jobs.StampsAtSpec | scripts/ci/run_test_suite.py:315-341 | across polls every start is kept; a test that already had a stop is left alone; otherwise its stop is the clock reading of the first poll that found its job Failed or Succeeded while another job was still active, and unset if no poll did |
| Jobs.StampsWriteOnce | scripts/ci/run_test_suite.py:329-334 | a stop set after some number of polls is unchanged after any later number of polls |
| Jobs.FirstStampSpec | scripts/ci/run_test_suite.py:315-334 | the first stamping poll stamps the test and no earlier poll does; there is none exactly when no poll so far stamps it |
| Jobs.ReportsAtWellFormed | scripts/ci/run_test_suite.py:336-339 | the progress lines printed in any number of polls have bounded tallies and no two consecutive equal finished counts |
| Jobs.Poll | scripts/ci/run_test_suite.py:316-339 | one tick: every test's job becomes the server's answer for its id; running exactly when some job is active; with none active nothing is stamped or printed; otherwise finished = number of jobs minus the active ones, the Failed/Succeeded jobs without a stop get this tick's clock, and a progress line with the job count, finished, succeeded and failed counts is emitted exactly when finished differs from `old_num_finished` |
| Jobs.ReportStep | scripts/ci/run_test_suite.py:336-339 | appending a progress line whose finished count differs from the last keeps the line sequence well formed (no two consecutive equal counts, bounded tallies) |
| Jobs.Advance | scripts/ci/run_test_suite.py:315-339 | one pass of the loop, with `old_num_finished` equal to the last printed count, takes the jobs, stops and lines after k polls to those after k + 1 polls; running exactly when some job is active; an existing stop is never overwritten |
| Jobs.Monitor | scripts/ci/run_test_suite.py:312-341 | the final jobs, stops and lines are those after the number of polls made; every poll before the last left some job active; the loop ends (settled) only after a poll with no active job; successive progress lines differ in finished count |
| Jobs.FinalTally | scripts/ci/run_test_suite.py:343-354 | every job is counted once: succeeded = jobs whose status is Succeeded, succeeded + failed = number of jobs; every job ends with a stop time, and existing stops are kept |
| Text.StripIsTrimmedSlice | scripts/ci/run_test_suite.py:179 | `strip()` yields a slice with only whitespace removed around it and no whitespace at either end |
| Text.Strip | scripts/ci/run_test_suite.py:179 | `strip()` is no longer than its input and neither starts nor ends with whitespace |
| Text.DropQuotesAndCommas | scripts/ci/run_test_suite.py:179 | the result holds no quote and no comma, is no longer than the input, and holds every other character exactly as often as the input |
| Text.DropQuotesAndCommasKeepsClean | scripts/ci/run_test_suite.py:179 | a string without quotes or commas is unchanged |
| Text.SplitColonSpaceSpec | scripts/ci/run_test_suite.py:179-180 | the split yields more than one piece exactly when a colon followed by whitespace occurs, and no piece contains one |
| Text.SplitColonSpacePair | scripts/ci/run_test_suite.py:179-180 | `key: value` with a colon-free key and a clean value splits into exactly `[key, value]` |
| Text.RemoveAllChangesIffContains | scripts/ci/run_test_suite.py:181 | `replace(p, "")` changes the string exactly when `p` occurs in it, and then shortens it |
| Text.RemoveAll | scripts/ci/run_test_suite.py:167 | `replace(p, "")` only deletes characters: no longer, and a sub-multiset of the input |
| Text.RemoveAllAfter | scripts/ci/run_test_suite.py:167 | removing `p` from `s + p` gives `s` when `p` does not occur in `s` and its first character does not recur in it |
| Text.DropTrailingSlash | scripts/ci/run_test_suite.py:181 | `re.sub("/$", "")` removes the final "/" when the string ends with one, otherwise the "/" just before a final newline, and otherwise changes nothing |
| Text.CollapseSlashesSpec | scripts/ci/run_test_suite.py:85 | collapsing leaves no doubled slash, keeps every other character in order, and keeps a path slash-free exactly when it was |
| Text.CollapseSlashesIdempotent | scripts/ci/run_test_suite.py:85 | a path without doubled slashes is its own collapse |
| Text.CollapseSlashesAppend | scripts/ci/run_test_suite.py:85 | a slash-free tail stays as it is behind the collapsed front |
| Text.CollapseSlashesShrink | scripts/ci/run_test_suite.py:85 | a doubled slash anywhere collapses like a single one; with `CollapseSlashesIdempotent` this fixes the result on every path |
| Text.CollapseSlashes | scripts/ci/run_test_suite.py:85 | collapsing is no longer than the input and keeps its first character; its value is fixed by `CollapseSlashesShrink` and `CollapseSlashesIdempotent` |
| Text.BasenameSpec | scripts/ci/run_test_suite.py:172 | the base name is the suffix after the last slash: slash-free, the whole path or preceded by "/", and a slash-free name joined to any directory is its own base name |
| Text.Basename | scripts/ci/run_test_suite.py:167 | the base name holds no slash and is no longer than the path |
| Text.BasenameEndsWith | scripts/ci/run_test_suite.py:172 | a slash-free ending of a path is an ending of its base name |
| Text.FirstSegment | scripts/ci/run_test_suite.py:285-287 | `split('.')[0]` is the dot-free prefix that ends at the first dot or at the end |
| Text.ExtensionSpec | scripts/ci/run_test_suite.py:200 | `splitext` yields "" or a dot followed by no dot or slash, and it is a suffix of the path |
| Text.ExtensionOfJoin | scripts/ci/run_test_suite.py:200 | a file `stem + ext` in any directory has extension `ext` |
| Text.Extension | scripts/ci/run_test_suite.py:200 | `splitext` yields "" or a dot followed by no dot, and a non-empty extension exactly when the base name has a dot with some non-dot character before it (so hidden files such as `.bam` have none) |
| Text.ExtensionOfEnding | scripts/ci/run_test_suite.py:200 | a path ending in `stem + ext`, with a slash-free stem that is not all dots, has extension `ext` |
| Text.SplitColonSpace | scripts/ci/run_test_suite.py:179 | the split yields at least one piece, and the first starts with the input's first character unless a separator starts there |
| Outputs.LastWith | scripts/ci/run_test_suite.py:171-174 | the position of the last listed object with a given base name, and none exactly when no object has it |
| Outputs.ExpectedEntries | scripts/ci/run_test_suite.py:170-174 | keys are exactly the expected base names; each entry comes from the last expected object with that name, with no actual data |
| Outputs.TestNameOfJson | scripts/ci/run_test_suite.py:167-170 | an input `dir/name.json`, with no slash and no ".json" in `name` (dotted names included), has test name `name` and expected outputs listed under `test_data/name/output_data` |
| Outputs.CollectExpected | scripts/ci/run_test_suite.py:170-174 | the first loop of `find_outputs` computes `ExpectedEntries` |
| Outputs.MatchAll | scripts/ci/run_test_suite.py:184-192 | scanning a listing never adds or removes a key; each entry records the last actual object with its name, or stays unchanged |
| Outputs.MatchAllAppend | scripts/ci/run_test_suite.py:177-192 | scanning two listings one after the other is scanning their concatenation |
| Outputs.MatchListing | scripts/ci/run_test_suite.py:184-192 | the inner loop computes `MatchAll`, skipping objects whose base name is not a key |
| Outputs.LinePrefix | scripts/ci/run_test_suite.py:177-181 | a line yields a prefix exactly when it contains `gs://<act_bucket>/` and its quote- and comma-free stripped form has a colon-space separator |
| Outputs.LinePrefixOfEntry | scripts/ci/run_test_suite.py:177-181 | an input line `"key": "gs://<bucket>/<path>/",` at any indentation yields exactly `path` |
| Outputs.FoundOutputs | scripts/ci/run_test_suite.py:166-194 | keys are exactly the expected base names, so no actual file adds a key; exp and exp_path come from the last expected object; act is set exactly when some actual object has the name (the last wins); act and act_path are set together |
| Outputs.FindOutputs | scripts/ci/run_test_suite.py:166-194 | the loops of `find_outputs` compute `FoundOutputs` |
| Outputs.ScanLines | scripts/ci/run_test_suite.py:176-192 | the loop over the input lines matches the listings of all actual-output lines in order, as `MatchAll` over their concatenation |
| Outputs.ActualBlobs | scripts/ci/run_test_suite.py:176-183 | exactly the listed objects: every actual object comes from the listing of a line that yields a prefix, every object listed under any line's prefix is among them, and lines yielding no prefix give no object |
| Outputs.ActualBlobsConcat | scripts/ci/run_test_suite.py:176-183 | the objects of two runs of lines are those of the first run followed by those of the second, so the lines are scanned in order |
| Outputs.ActualBlobsAt | scripts/ci/run_test_suite.py:176-183 | each line's listing sits in place between the objects of the lines before and after it, so every object listed under a line's prefix is scanned |
| Outputs.FoundWhenListed | scripts/ci/run_test_suite.py:176-192 | an expected file sharing its base name with an object listed under some input line's prefix gets its actual checksum and path recorded |
| Outputs.ComparatorForSound | scripts/ci/run_test_suite.py:211-222 | each comparator is chosen only for paths with its endings; compressed FASTQ/FASTA never goes to the gzip-text comparison |
| Outputs.ComparatorFor | scripts/ci/run_test_suite.py:200-225 | a comparison is chosen exactly when the extension is .fastq, .fasta, .bam, .gz or .pdf |
| Outputs.GzippedSequenceExtension | scripts/ci/run_test_suite.py:211 | a path ending in .fastq.gz, .fq.gz, .fasta.gz or .fa.gz has extension .gz |
| Outputs.ComparatorByExtension | scripts/ci/run_test_suite.py:211-222 | .fastq/.fasta give the sequence comparison, .bam the alignment one, .pdf the PDF one, and .gz the sequence one for compressed sequence files and gzip text otherwise |
| Outputs.UnknownExtension | scripts/ci/run_test_suite.py:223-225 | any other extension gets no comparator |
| Outputs.HiddenFileNoComparator | scripts/ci/run_test_suite.py:200-225 | a hidden file such as `out/.bam` has extension "" and gets no comparison |
| Outputs.ComparatorForJoin | scripts/ci/run_test_suite.py:200-225 | the comparator for `dir/stem.ext` is determined by `ext` alone, and ".txt" gets none |
| Outputs.CompareContents | scripts/ci/run_test_suite.py:223-225 | without a comparator the result is 1 |
| Outputs.MismatchStep | scripts/ci/run_test_suite.py:249-255 | examining one more file adds one to the count exactly when it mismatches |
| Outputs.MismatchSpec | scripts/ci/run_test_suite.py:250-251 | an exempt file (.png, sequencing_summary.txt, .tbi) or one with equal checksums never counts; otherwise a missing actual file counts, an unknown extension counts, and a known one counts exactly when its tool exits non-zero |
| Outputs.CompareOutputs | scripts/ci/run_test_suite.py:247-257 | the count is the number of mismatching files (not exempt, checksums differ, no actual path or a non-zero comparison), between 0 and the number of files |
| Outputs.FoundOutputsMismatches | scripts/ci/run_test_suite.py:250-251 | a non-exempt expected file without actual copy counts whatever the tools answer; an exempt file, or one with equal checksums, never counts |
| Outputs.NoMismatchIff | scripts/ci/run_test_suite.py:247-257 | the count is 0 exactly when every file is exempt, agrees in checksum, or has an actual copy the comparison accepts |
| Dispatch.FirstMatch | scripts/ci/run_test_suite.py:83-87 | the first walked file whose collapsed path ends with the name, and none exactly when no file does |
| Dispatch.FindWdlPathSpec | scripts/ci/run_test_suite.py:82-89 | `FindWdlPath`: a found path ends with the name and has no doubled slash; a path is found exactly when some walked file ends with the name, and it is the first such file's |
| Dispatch.WalkPathJoin | scripts/ci/run_test_suite.py:83-85 | a file under a root with no doubled slash is joined to it by exactly one slash, so the top directory `wdl/` gives `wdl/Foo.wdl` |
| Dispatch.WalkPathEndsWith | scripts/ci/run_test_suite.py:84-86 | a walked file whose own name ends with the requested name has a collapsed path ending with it, in any directory |
| Dispatch.WalkedFileFound | scripts/ci/run_test_suite.py:82-89 | when some walked file is named with the requested ending, a workflow path is found and ends with it |
| Dispatch.WdlName | scripts/ci/run_test_suite.py:284-286 | the requested workflow name is a dot-free prefix of the test name, ending at a dot of the test name or at its end, followed by ".wdl" |
| Dispatch.DispatchableSpec | scripts/ci/run_test_suite.py:282-289 | an input is dispatched exactly when it is not disabled and some walked file's collapsed path ends with the workflow name it asks for |
| Dispatch.OptionsFileSpec | scripts/ci/run_test_suite.py:298-300 | `OptionsFile`: the no-caching options are chosen exactly when "Download" occurs in the input path; a path without a capital D gets the caching options |
| Dispatch.DownloadDisablesCaching | scripts/ci/run_test_suite.py:300 | any path containing "Download" gets the no-caching options |
| Dispatch.LastDispatchSpec | scripts/ci/run_test_suite.py:281-306 | the entry of a test comes from a dispatchable input with that name after which no dispatchable input has that name; a test has none exactly when no dispatchable input has its name |
| Dispatch.DispatchSkip | scripts/ci/run_test_suite.py:281-289 | a disabled input, or one whose workflow file is missing, changes none of the dicts |
| Dispatch.DispatchRecord | scripts/ci/run_test_suite.py:290-306 | a dispatched input overwrites its test's job, times and input with the new submission and no stop time |
| Dispatch.DispatchTests | scripts/ci/run_test_suite.py:278-306 | after the loop the three dicts share their keys, which are the names of the dispatchable inputs; each holds the last such input's submission, start tick and path |
| Dispatch.DispatchedStateSpec | scripts/ci/run_test_suite.py:281-306 | every recorded input is an enabled input, its test name is its base name, its workflow file exists, and it has no stop time; every enabled input with a workflow file has an entry |
| Suite.CheckTest | scripts/ci/run_test_suite.py:360-383 | a test passes exactly when its job Succeeded and its found outputs have no mismatch |
| Suite.Verdict | scripts/ci/run_test_suite.py:311-384 | the exit status is 0 or 1, and 0 exactly when every job Succeeded with zero mismatches (trivially so when there is no job) |
| Suite.Settle | scripts/ci/run_test_suite.py:312-384 | from the dispatched jobs: the jobs are the server's answers after the polls made, every earlier poll left some job active; once settled, no job is active, the polls' stops are kept and every other job gets the final clock reading, and the status is 0 or 1, 0 exactly when every job passes |
| Suite.RunSuite | scripts/ci/run_test_suite.py:278-384 | the whole run: every recorded test's input is a dispatchable input with that test name, and every dispatchable input's test is recorded; with none the status is 0 without polling; otherwise the later stages keep `Settled` from the dispatched state |

## Left out

- Google Cloud Storage is not modelled: listing, deleting, downloading and
  uploading objects. Listings are the `listBlobs` parameter.
  `remove_old_final_outputs` and its warning are not modelled, because they
  only delete objects and print. Neither is `upload_metadata`, which only
  uploads and prints.
- Every subprocess and curl call is replaced by a parameter: `mash`,
  `samtools`, `zcat`/`gzcat`, `pdftotext`, `diff`, `jq` and `zip`. This
  includes `prepare_dependencies` and the retry loop and `exit(1)` of
  `run_curl_cmd`.
- JSON parsing of the server's answers is not modelled. A job is a record
  with an id and a status.
- `get_job_failure_metadata` is not modelled, because it only prints.
- `time.sleep(60)` is not modelled.
- `datetime.now()` is a tick parameter. One reading stands for every job
  stamped in the same poll, and one (`finishedAt`) for the final tally,
  where the script reads the clock once per stamped job (lines 330, 334
  and 354); nothing in the script depends on those readings differing.
  Durations and their printing are not modelled.
- The `server_url` set-up, `glob` and the reading of the disabled-tests
  file are not modelled. Inputs, the disabled set and the walk are given.
- Coloured console printing is not modelled. Progress lines are kept as a
  sequence of (total, finished, succeeded, failed) records.
- Dict iteration order is not modelled. Loops over a dict take its keys
  in an arbitrary order, and every result proved is independent of that
  order. Loops over listings and over the lines of an input run in sequence
  order, and there the last-wins overwrite is modelled exactly.
- Objects without an MD5 checksum are not modelled, because every checksum
  is a string.
- Jobs.Monitor: the loop is bounded by `maxPolls`, and Suite.RunSuite
  answers none when the jobs are still active after that many polls. The
  source polls without bound and cannot be shown to stop, because stopping
  depends on the server.
- Outputs.LinePrefix: it does not state the prefix's value in general. It
  states exactly when a prefix exists; its value on the standard
  input-line shape is given by `LinePrefixOfEntry`.
- Outputs.CompareContents: when a comparator is chosen, the result is the
  tool's exit status, modelled as an uninterpreted function. The warning
  output and the `r is None` branch are not modelled, because that branch
  cannot occur once a tool has run.
