# QA pipeline scripts — a Dafny model

This project models the two scripts of the OpenFilter QA harness that hold
sequential logic of their own:

* `qa_tests/run_qa_pipeline.py` — runs pytest with Allure, folds the
  per-test `*-result.json` files into a run summary `(total, passed, failed)`,
  and, when Allure is not installed, writes a basic HTML report with a pass
  rate and a bug-discovery rate. After a real Allure report it also writes
  the "Current" entries of four trend widgets; the basic report creates no
  `widgets/` directory, so on that path the first widget write (line 268)
  raises `FileNotFoundError` and no widget is written. It picks the report
  port with `find_available_port`.
* `qa_tests/final_qa_validation.py` — `QAPipelineValidator`, which runs pytest
  several times, scrapes the text output (the "collected" count, PASSED /
  FAILED lines, the final summary line), turns each check into a verdict and
  folds the five verdicts into `overall_success` and two counters.

Every subprocess, file, socket and clock is an input value: a pytest run is an
`Execution` (exited with a return code and captured text, timed out, or
crashed), a result file is a `ResultFile` that is unreadable, valid JSON that
is not an object, or an object with an optional status, and the socket bind
is an oracle `bindable: int -> bool`.

Files:

* `options.dfy` — `Option`.
* `seqs.dfy` — counting and filtering (the list comprehensions both scripts
  use), first/last match, order-independence of counts.
* `pytext.dfy` — the Python string operations the scripts rely on: `in`,
  `split('\n')`, `split()`, `int()`, `str()`, with their round trips.
* `validation.dfy` — module `QaValidation`, final_qa_validation.py.
* `pipeline.dfy` — module `QaPipeline`, run_qa_pipeline.py.

Two behaviours of the code are modelled as written:

* An unparsable collected count and a missing collected line are both
  stored as 0, and a failed command is stored as -1. A line such as "-1 tests
  collected" stores the same -1 as a failed command. `CollectionCountOf`
  keeps the four cases apart, and `RecordedCount` collapses them exactly as
  the code does.
* The fallback report divides by `total` with no guard, so an empty run
  raises instead of producing the report. That is recorded under
  "## Findings".

## Model

| member | source | states |
|---|---|---|
| QaPipeline.FindAvailablePort | PlainsightAI-takehome/qa_tests/run_qa_pipeline.py:16-26 | The result is the first port of `[start, start+100)` that binds, every earlier port failing; if none binds, it is `start`; a port number outside 0..65535 reached first ends in the escaping `OverflowError`; a start whose whole window lies in 0..65535 always ends with a port |
| QaPipeline.ReportPort | PlainsightAI-takehome/qa_tests/run_qa_pipeline.py:145 | From the start 64678 the search never overflows: the report port lies in 64678..64777, binds unless no port of that window binds, and is then 64678 |
| QaPipeline.AggregateResults | PlainsightAI-takehome/qa_tests/run_qa_pipeline.py:198-209 | The loop yields `total` = files that loaded, `passed` = status "passed", `failed` = status "failed" or "broken", and `passed + failed <= total` |
| QaPipeline.SummaryPartition | PlainsightAI-takehome/qa_tests/run_qa_pipeline.py:203-207 | Every loaded file is counted as exactly one of passed, failed or other, so `total = passed + failed + others` |
| QaPipeline.TotalCountsLoadedFiles | PlainsightAI-takehome/qa_tests/run_qa_pipeline.py:200-203 | `total` is the number of files that loaded, and equals the number of files exactly when none failed to load |
| QaPipeline.UnreadableContributesNothing | PlainsightAI-takehome/qa_tests/run_qa_pipeline.py:200-209 | A file whose JSON fails to load leaves the summary unchanged wherever it appears |
| QaPipeline.SummaryIgnoresOrder | PlainsightAI-takehome/qa_tests/run_qa_pipeline.py:199 | The summary is the same for any order in which `glob` lists the files |
| QaPipeline.Trend | PlainsightAI-takehome/qa_tests/run_qa_pipeline.py:290-352 | Every trend widget has five entries with build orders 5,4,3,2,1 strictly descending, the samples first and the "Current" run last |
| QaPipeline.HistoryTrendShape | PlainsightAI-takehome/qa_tests/run_qa_pipeline.py:290-301 | The current history entry copies passed, failed and total and has broken, skipped and unknown at 0 |
| QaPipeline.HistoryTrendConsistent | PlainsightAI-takehome/qa_tests/run_qa_pipeline.py:290-300 | For a summary built from result files, no history entry lists more categorised tests than its total; each sample accounts for its total exactly |
| QaPipeline.CurrentCategories | PlainsightAI-takehome/qa_tests/run_qa_pipeline.py:316-317 | Product and test defects are non-negative, add up to `failed`, and a test defect is reported exactly when something failed |
| QaPipeline.CurrentRetries | PlainsightAI-takehome/qa_tests/run_qa_pipeline.py:333-334 | Retries are the smaller of `failed` and 2, so at most 2; `run` equals `total` |
| QaPipeline.CurrentDuration | PlainsightAI-takehome/qa_tests/run_qa_pipeline.py:350-351 | The duration is at least 11350 ms, exactly that when nothing failed |
| QaPipeline.DurationStrictlyIncreasing | PlainsightAI-takehome/qa_tests/run_qa_pipeline.py:351 | More failures give a strictly longer duration |
| QaPipeline.BasicReportRates | PlainsightAI-takehome/qa_tests/run_qa_pipeline.py:107-108 | As written: the division fails exactly when `total` is 0; otherwise each rate times `total` is its count times 100 |
| QaPipeline.EmptyRunBreaksBasicReport | PlainsightAI-takehome/qa_tests/run_qa_pipeline.py:107-108 | A run with no loadable result file makes the fallback report divide by zero |
| QaPipeline.GuardedRates | PlainsightAI-takehome/qa_tests/run_qa_pipeline.py:107-108 | Corrected: "no data" exactly when `total` is 0, otherwise the source's two rates |
| QaPipeline.GuardedRatesBounded | PlainsightAI-takehome/qa_tests/run_qa_pipeline.py:107-108 | For a summary built from result files both rates lie in [0, 100] and their sum is at most 100 |
| QaPipeline.MakeBasicReport | PlainsightAI-takehome/qa_tests/run_qa_pipeline.py:68-110 | Corrected: the fallback report shows total, passed and failed unchanged, "no data" rates exactly for an empty run, and otherwise the as-written rates, pass rate × total = passed × 100 and bug-discovery rate × total = failed × 100 |
| QaValidation.RunPytestCommand | PlainsightAI-takehome/qa_tests/final_qa_validation.py:44-61 | Success exactly when the process exited with code 0; a timeout or exception gives empty stdout and the timeout text or exception text as stderr |
| QaValidation.CollectionCountOf | PlainsightAI-takehome/qa_tests/final_qa_validation.py:84-108 | A failed command is its own case; with no line containing both "collected" and "test" the count is missing; otherwise the count is the parse of the FIRST such line |
| QaValidation.CountOfPlainShape | PlainsightAI-takehome/qa_tests/final_qa_validation.py:90-97 | A line "N tests collected" (any text after the first space) yields N when N has at most 4300 digits, and the `ValueError` (recorded as 0) beyond |
| QaValidation.CountOfProgressShape | PlainsightAI-takehome/qa_tests/final_qa_validation.py:90-94 | A line "M/N tests collected" yields N, the figure after the slash, when N has at most 4300 digits, and the `ValueError` beyond |
| QaValidation.SamplePlainLine | PlainsightAI-takehome/qa_tests/final_qa_validation.py:90 | "128 tests collected" yields 128 |
| QaValidation.SampleProgressLine | PlainsightAI-takehome/qa_tests/final_qa_validation.py:90 | "10/128 tests collected" yields 128 |
| QaValidation.ValidateTestCollection | PlainsightAI-takehome/qa_tests/final_qa_validation.py:78-119 | A failed command records -1, a missing or unparsable count records 0, a parsed count is recorded as is; the verdict holds exactly when the regression run succeeded with a parsed count above 0 |
| QaValidation.ValidateRegressionSuite | PlainsightAI-takehome/qa_tests/final_qa_validation.py:189-219 | On success the counts are the numbers of lines with "PASSED" and with "FAILED"; on failure both lists are empty; the verdict is success or "collected" in stdout |
| QaValidation.RegressionListsAreTheMarkedLines | PlainsightAI-takehome/qa_tests/final_qa_validation.py:190-192 | A line is listed as passed (failed) exactly when it is an output line containing "PASSED" ("FAILED") |
| QaValidation.ValidateBugDiscovery | PlainsightAI-takehome/qa_tests/final_qa_validation.py:239-254 | Tests are found exactly when stdout contains "collected" |
| QaValidation.CountUnclearUnreachable | PlainsightAI-takehome/qa_tests/final_qa_validation.py:239-247 | stdout contains "collected" exactly when one of its lines does, so the "count unclear" branch is dead |
| QaValidation.ValidateCompletePipeline | PlainsightAI-takehome/qa_tests/final_qa_validation.py:268-290 | Stored stdout and stderr are exactly `stdout[:5000]` and `stderr[:2000]` (empty text stays empty); the verdict is "collected" in stdout; the summary is the LAST line with "=" and "passed" or "failed", "unclear" when none exists, "not collected" exactly when the verdict is false |
| QaValidation.SummaryTextTellsCase | PlainsightAI-takehome/qa_tests/final_qa_validation.py:275-285 | The stored summary text is a result line exactly when a result line was found; "Could not parse results" and "Pipeline failed to collect tests" hold no "=" |
| QaValidation.Truncate | PlainsightAI-takehome/qa_tests/final_qa_validation.py:270-271 | The stored text is a prefix of the original of length min(length, limit) |
| QaValidation.TotalResultFiles | PlainsightAI-takehome/qa_tests/final_qa_validation.py:143-162 | The summed result-file count is positive exactly when some command left a results directory with at least one file |
| QaValidation.ValidateAllureIntegration | PlainsightAI-takehome/qa_tests/final_qa_validation.py:161-168 | The check passes exactly when some test type observed an existing results directory with a JSON file |
| QaValidation.EntryFor | PlainsightAI-takehome/qa_tests/final_qa_validation.py:318-336 | A validation's entry is passed exactly when it returned true; it carries an error exactly when it raised, and that error is the exception's text |
| QaValidation.GenerateValidationReport | PlainsightAI-takehome/qa_tests/final_qa_validation.py:311-339 | `overall_success` holds exactly when every validation returned true; the counters count returned-true and returned-false; with the raised ones they account for every validation |
| QaValidation.PassedFailedRaisedPartition | PlainsightAI-takehome/qa_tests/final_qa_validation.py:315-337 | Every outcome is exactly one of returned-true, returned-false, raised |
| QaValidation.CountersAccountForEveryValidation | PlainsightAI-takehome/qa_tests/final_qa_validation.py:303-337 | For the five validations `passed_count + failed_count <= 5`, with equality exactly when none raised |
| QaValidation.UnstartedRunFailsEveryCheck | PlainsightAI-takehome/qa_tests/final_qa_validation.py:58-61 | A run that timed out or raised records -1 and fails the regression, bug-discovery and pipeline checks |
| PyText.ContainsIff | PlainsightAI-takehome/qa_tests/final_qa_validation.py:87 | Python's substring test holds exactly when the needle occurs at some position |
| PyText.JoinSplit | PlainsightAI-takehome/qa_tests/final_qa_validation.py:86 | Joining the pieces of `split('\n')` with the separator restores the output |
| PyText.SplitJoin | PlainsightAI-takehome/qa_tests/final_qa_validation.py:94 | Splitting a join of separator-free pieces returns the pieces, so "M/N" splits into M and N |
| PyText.SplitSingle | PlainsightAI-takehome/qa_tests/final_qa_validation.py:92-94 | `split('/')` yields a second piece exactly when the token holds a "/", so `[1]` is safe behind the `'/' in` test |
| PyText.SplitPiecesFree | PlainsightAI-takehome/qa_tests/final_qa_validation.py:86 | No line of `split('\n')` contains a newline |
| PyText.PiecePosition | PlainsightAI-takehome/qa_tests/final_qa_validation.py:240-241 | Every line of the output occurs in the output, the first one at its start |
| PyText.SplitKeepsOccurrence | PlainsightAI-takehome/qa_tests/final_qa_validation.py:240-241 | A newline-free needle found in the output is found in one of its lines |
| PyText.WordsKeepNonSpace | PlainsightAI-takehome/qa_tests/final_qa_validation.py:91 | `split()` yields non-empty whitespace-free words whose concatenation is exactly the input's non-whitespace characters |
| PyText.WordBounds | PlainsightAI-takehome/qa_tests/final_qa_validation.py:91 | Every word of `split()` is a whole run of the input: it starts at the input's start or after whitespace, ends at the input's end or before whitespace, and lies strictly after the word before it |
| PyText.FirstWord | PlainsightAI-takehome/qa_tests/final_qa_validation.py:91 | A non-empty word followed by whitespace is the first token of `split()` |
| PyText.ParseIntRoundTrip | PlainsightAI-takehome/qa_tests/final_qa_validation.py:94-97 | `int(str(n)) == n` for every integer of at most 4300 digits; for longer ones `int()` raises `ValueError` |
| Seqs.FilterHeadIsFirstMatch | PlainsightAI-takehome/qa_tests/final_qa_validation.py:87-91 | Element `[0]` of a comprehension is the first matching element |
| Seqs.FilterLastIsLastMatch | PlainsightAI-takehome/qa_tests/final_qa_validation.py:277-279 | Element `[-1]` of a comprehension is the last matching element |
| Seqs.CountPermutation | PlainsightAI-takehome/qa_tests/run_qa_pipeline.py:199-207 | A count depends only on the multiset of elements, not their order |

## Findings

| source | as written | input that shows it | evidently intended | confidence | as-written member | corrected member |
|---|---|---|---|---|---|---|
| PlainsightAI-takehome/qa_tests/run_qa_pipeline.py:107-108 | `passed/total*100` and `failed/total*100` with no guard; the call at line 251 sits inside an `except:` handler, so the `ZeroDivisionError` escapes `main` and no report is written | no loadable `*-result.json` file (pytest could not run, or every file is malformed) and no Allure CLI, so `total = 0` | the fallback report is still written for an empty run, showing "no data" instead of a percentage: the function exists to "Create a basic HTML report if Allure is not available" (line 29), and the handler at lines 250-252 continues with `allure_found = True  # Continue with basic report` | high (not executed) | QaPipeline.EmptyRunBreaksBasicReport | QaPipeline.GuardedRates |

`QaPipeline.BasicReportRates` is the division as written; `QaPipeline.MakeBasicReport`
builds the report from `QaPipeline.GuardedRates`.

## Left out

* Subprocess, file and socket plumbing: the `subprocess.run` / `Popen` calls,
  the Allure and scoop command fallbacks, `shutil.rmtree`, `glob`, file reads
  and writes, `webbrowser`, `time.sleep`, logging and printing. Their results
  are inputs (`Execution`, `ResultFile`, `AllureObservation`,
  `ValidationOutcome`) or are not modelled.
* The socket bind in `find_available_port` is the oracle `bindable`; only the
  range check that makes `bind` raise `OverflowError` is modelled.
* The HTML template text, executor and environment JSON, the environment
  widget and the `datetime.now()` stamps: presentation only.
* `details` of each validation entry and the report file: they repeat data
  already modelled or are I/O.
* `main` of both scripts beyond the pieces above (the `allure_found` flow and
  the exit status), since they are printing and process control. This
  includes the widget writes at lines 267-352 of `run_qa_pipeline.py`
  failing on the basic-report path, where `allure-report/widgets/` does not
  exist: that is a missing directory, not a computation.
* Floating-point formatting of the rates (`:.1f`): the rates are exact reals.
- PyText.ParseInt: accepts ASCII digits only; Python's `int()` also accepts
  other Unicode decimal digits and strips surrounding whitespace, which the
  tokens here never carry (`Words` yields whitespace-free tokens). The digit
  limit is fixed at the interpreter default of 4300; a limit changed through
  `sys.set_int_max_str_digits` or `PYTHONINTMAXSTRDIGITS` is not modelled.
* The test modules under `unit/`, `integration/`, `end_to_end/` and
  `performance/`: assertions against mock objects, threads and timings, with
  no implementation behind them.
