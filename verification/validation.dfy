/** The `QAPipelineValidator` of final_qa_validation.py: the outcome of each
    pytest invocation, the text scraping each validation performs on its
    output, and the aggregation of the five validations into one report.
    The subprocess itself is not modelled: its observable result is an input
    (`Execution`), and so is the file count the Allure check observes. */
module QaValidation {
  import opened Options
  import opened Seqs
  import opened PyText

  // ---------------------------------------------------------------------
  // run_pytest_command
  // ---------------------------------------------------------------------

  /** What one `subprocess.run` of pytest ends with. */
  datatype Execution =
    | Exited(returnCode: int, stdout: string, stderr: string)  // the process ran to completion
    | TimedOut                                                  // exceeded the 300 s bound
    | Crashed(message: string)                                  // any other exception, with its text

  /** The `(success, stdout, stderr)` triple `run_pytest_command` returns. */
  datatype PytestRun = PytestRun(success: bool, stdout: string, stderr: string)

  const TimeoutMessage: string := "Command timed out"

  function RunPytestCommand(e: Execution): (r: PytestRun)
    ensures r.success <==> e.Exited? && e.returnCode == 0
    ensures e.Exited? ==> r.stdout == e.stdout && r.stderr == e.stderr
    ensures !e.Exited? ==> r.stdout == ""
    ensures e.TimedOut? ==> r.stderr == TimeoutMessage
    ensures e.Crashed? ==> r.stderr == e.message
  {
    match e
    case Exited(code, out, err) => PytestRun(code == 0, out, err)
    case TimedOut => PytestRun(false, "", TimeoutMessage)
    case Crashed(msg) => PytestRun(false, "", msg)
  }

  /** `stdout.split('\n')`. */
  function Lines(s: string): seq<string> {
    Split(s, '\n')
  }

  // ---------------------------------------------------------------------
  // validate_test_collection
  // ---------------------------------------------------------------------

  /** The six targets collected, in the order of the `targets` dictionary of
      `validate_test_collection`. */
  const CollectionTargets: seq<string> :=
    ["unit", "integration", "end_to_end", "performance", "regression", "bug_discovery"]

  /** Position of "regression" in `CollectionTargets`. */
  const RegressionTarget: nat := 4

  /** A line that reports the collected count. */
  predicate IsCollectedLine(line: string) {
    Contains(line, "collected") && Contains(line, "test")
  }

  /** The count printed at the start of a collected line: the first
      whitespace-separated token, or the part after its first "/" when the
      token has one. `None` stands for the `IndexError`/`ValueError` that
      `validate_test_collection` catches. */
  function ParseCollectedCount(line: string): Option<int> {
    var tokens := Words(line);
    if |tokens| == 0 then None
    else if Contains(tokens[0], "/") then
      ContainsChar(tokens[0], '/');
      SplitSingle(tokens[0], '/');
      ParseInt(Split(tokens[0], '/')[1])
    else ParseInt(tokens[0])
  }

  /** What one `--collect-only` run tells the validator, before
      `validate_test_collection` flattens it into an integer. */
  datatype CollectionCount =
    | Counted(n: int)      // the first collected line parsed
    | Unparsable           // the first collected line did not parse
    | NoCollectedLine      // the command succeeded but printed no collected line
    | CollectionFailed     // the command failed, timed out or raised

  /** `i` is the first line of `stdout` that reports the collected count. */
  ghost predicate IsFirstCollectedLine(stdout: string, i: int) {
    IsFirstMatch(Lines(stdout), IsCollectedLine, i)
  }

  function CollectionCountOf(run: PytestRun): (c: CollectionCount)
    ensures c == CollectionFailed <==> !run.success
    ensures c == NoCollectedLine <==>
      run.success && forall i :: 0 <= i < |Lines(run.stdout)| ==> !IsCollectedLine(Lines(run.stdout)[i])
    ensures c.Counted? ==>
      exists i :: IsFirstCollectedLine(run.stdout, i) && ParseCollectedCount(Lines(run.stdout)[i]) == Some(c.n)
    ensures c == Unparsable ==>
      exists i :: IsFirstCollectedLine(run.stdout, i) && ParseCollectedCount(Lines(run.stdout)[i]) == None
  {
    if !run.success then CollectionFailed
    else
      var matches := Filter(Lines(run.stdout), IsCollectedLine);
      CountZero(Lines(run.stdout), IsCollectedLine);
      if |matches| == 0 then NoCollectedLine
      else
        FilterHeadIsFirstMatch(Lines(run.stdout), IsCollectedLine);
        match ParseCollectedCount(matches[0])
        case Some(n) => Counted(n)
        case None => Unparsable
  }

  /** The integer `validate_test_collection` stores: the parsed count, 0 when the line is
      missing or unparsable, -1 when the command failed. */
  function RecordedCount(c: CollectionCount): int {
    match c
    case Counted(n) => n
    case Unparsable => 0
    case NoCollectedLine => 0
    case CollectionFailed => -1
  }

  /** `collection_results` (aligned with `CollectionTargets`) and the
      verdict of `validate_test_collection`. */
  datatype CollectionReport = CollectionReport(counts: seq<int>, passed: bool)

  function ValidateTestCollection(runs: seq<PytestRun>): (r: CollectionReport)
    requires |runs| == |CollectionTargets|
    ensures |r.counts| == |CollectionTargets|
    ensures forall i :: 0 <= i < |runs| && !runs[i].success ==> r.counts[i] == -1
    ensures forall i :: 0 <= i < |runs| && CollectionCountOf(runs[i]).Counted? ==>
      r.counts[i] == CollectionCountOf(runs[i]).n
    ensures forall i :: 0 <= i < |runs| && runs[i].success && !CollectionCountOf(runs[i]).Counted? ==>
      r.counts[i] == 0
    ensures r.passed <==>
      runs[RegressionTarget].success && CollectionCountOf(runs[RegressionTarget]).Counted?
      && CollectionCountOf(runs[RegressionTarget]).n > 0
  {
    var counts := seq(|runs|, i requires 0 <= i < |runs| => RecordedCount(CollectionCountOf(runs[i])));
    CollectionReport(counts, counts[RegressionTarget] > 0)
  }

  /** "N tests collected" yields N. */
  lemma CountOfPlainShape(n: nat, tail: string)
    ensures ParseCollectedCount(NatToString(n) + " " + tail) ==
      if |NatToString(n)| <= MaxStrDigits then Some(n) else None
  {
    var token := NatToString(n);
    assert token + " " + tail == token + [' '] + tail;
    FirstWord(token, ' ', tail);
    ContainsChar(token, '/');
    ParseIntRoundTrip(n);
  }

  /** "M/N tests collected" yields N, the figure after the slash. */
  lemma CountOfProgressShape(m: nat, n: nat, tail: string)
    ensures ParseCollectedCount(NatToString(m) + "/" + NatToString(n) + " " + tail) ==
      if |NatToString(n)| <= MaxStrDigits then Some(n) else None
  {
    var token := NatToString(m) + "/" + NatToString(n);
    assert token + " " + tail == token + [' '] + tail;
    assert forall i :: 0 <= i < |token| ==> IsDigit(token[i]) || token[i] == '/';
    FirstWord(token, ' ', tail);
    ProgressToken(m, n);
    ParseIntRoundTrip(n);
  }

  /** The token "M/N" holds a slash and splits on it into M and N. */
  lemma ProgressToken(m: nat, n: nat)
    ensures Contains(NatToString(m) + "/" + NatToString(n), "/")
    ensures Split(NatToString(m) + "/" + NatToString(n), '/') == [NatToString(m), NatToString(n)]
  {
    ContainsInfix(NatToString(m), "/", NatToString(n));
    assert Join([NatToString(m), NatToString(n)], '/') == NatToString(m) + "/" + NatToString(n);
    SplitJoin([NatToString(m), NatToString(n)], '/');
  }

  /** The plain shape on the sample line in the comment of
      `validate_test_collection`. */
  lemma SamplePlainLine()
    ensures ParseCollectedCount("128 tests collected") == Some(128)
  {
    SampleFigures();
    assert "128 tests collected" == "128" + " " + "tests collected";
    CountOfPlainShape(128, "tests collected");
  }

  /** The progress shape on the sample line in the comment of
      `validate_test_collection`. */
  lemma SampleProgressLine()
    ensures ParseCollectedCount("10/128 tests collected") == Some(128)
  {
    SampleFigures();
    assert "10/128 tests collected" == "10" + "/" + "128" + " " + "tests collected";
    CountOfProgressShape(10, 128, "tests collected");
  }

  /** The figures of the sample lines, rendered. */
  lemma SampleFigures()
    ensures NatToString(10) == "10" && NatToString(128) == "128"
  {
    assert NatToString(1) == "1";
    assert NatToString(12) == "12";
  }

  // ---------------------------------------------------------------------
  // validate_regression_suite
  // ---------------------------------------------------------------------

  predicate HasPassedMark(line: string) {
    Contains(line, "PASSED")
  }

  predicate HasFailedMark(line: string) {
    Contains(line, "FAILED")
  }

  /** The `regression_results` the suite validation records, and its verdict.
      `passed_count` and `failed_count` are the lengths of the two lists. */
  datatype RegressionReport = RegressionReport(
    executionSuccess: bool,
    passedTests: seq<string>,
    failedTests: seq<string>,
    passed: bool)

  function ValidateRegressionSuite(run: PytestRun): (r: RegressionReport)
    ensures r.executionSuccess == run.success
    ensures !run.success ==> r.passedTests == [] && r.failedTests == []
    ensures run.success ==> |r.passedTests| == Count(Lines(run.stdout), HasPassedMark)
    ensures run.success ==> |r.failedTests| == Count(Lines(run.stdout), HasFailedMark)
    ensures forall i :: 0 <= i < |r.passedTests| ==> Contains(r.passedTests[i], "PASSED")
    ensures forall i :: 0 <= i < |r.failedTests| ==> Contains(r.failedTests[i], "FAILED")
    ensures r.passed <==> run.success || Contains(run.stdout, "collected")
  {
    if run.success then
      var lines := Lines(run.stdout);
      RegressionReport(true, Filter(lines, HasPassedMark), Filter(lines, HasFailedMark), true)
    else
      RegressionReport(false, [], [], Contains(run.stdout, "collected"))
  }

  /** A line lands in `passed_tests` exactly when it is a line of the output
      carrying the PASSED mark (and likewise for FAILED). */
  lemma RegressionListsAreTheMarkedLines(run: PytestRun, line: string)
    requires run.success
    ensures line in ValidateRegressionSuite(run).passedTests <==>
      line in Lines(run.stdout) && Contains(line, "PASSED")
    ensures line in ValidateRegressionSuite(run).failedTests <==>
      line in Lines(run.stdout) && Contains(line, "FAILED")
  {
    FilterMembership(Lines(run.stdout), HasPassedMark, line);
    FilterMembership(Lines(run.stdout), HasFailedMark, line);
  }

  // ---------------------------------------------------------------------
  // validate_bug_discovery
  // ---------------------------------------------------------------------

  predicate HasCollected(line: string) {
    Contains(line, "collected")
  }

  /** `tests_found`: the output mentions "collected" and some line carries it;
      when the first holds but not the second `validate_bug_discovery` reports
      "count unclear" and returns false. */
  function ValidateBugDiscovery(run: PytestRun): (found: bool)
    ensures found <==> Contains(run.stdout, "collected")
  {
    if Contains(run.stdout, "collected") then
      SplitKeepsOccurrence(run.stdout, '\n', "collected");
      var i :| 0 <= i < |Lines(run.stdout)| && HasCollected(Lines(run.stdout)[i]);
      CountZero(Lines(run.stdout), HasCollected);
      |Filter(Lines(run.stdout), HasCollected)| > 0
    else false
  }

  /** The "found but count unclear" outcome cannot occur: whenever the output
      mentions "collected", one of its lines does. */
  lemma {:induction false} CountUnclearUnreachable(stdout: string)
    ensures Contains(stdout, "collected") <==>
      exists i :: 0 <= i < |Lines(stdout)| && Contains(Lines(stdout)[i], "collected")
  {
    assert Lines(stdout) == Split(stdout, '\n');
    if Contains(stdout, "collected") {
      SplitKeepsOccurrence(stdout, '\n', "collected");
    }
    if i :| 0 <= i < |Lines(stdout)| && Contains(Lines(stdout)[i], "collected") {
      PieceOccurrenceInWhole(stdout, '\n', i, "collected");
    }
  }

  // ---------------------------------------------------------------------
  // validate_complete_pipeline
  // ---------------------------------------------------------------------

  const StoredStdoutLimit: nat := 5000
  const StoredStderrLimit: nat := 2000

  /** Python's `s[:limit]`. */
  function Truncate(s: string, limit: nat): (t: string)
    ensures |t| == if |s| <= limit then |s| else limit
    ensures t <= s
  {
    if |s| <= limit then s else s[..limit]
  }

  /** A pytest summary line such as "==== 3 failed, 40 passed in 2.1s ====". */
  predicate IsResultLine(line: string) {
    Contains(line, "=") && (Contains(line, "passed") || Contains(line, "failed"))
  }

  datatype PipelineSummary =
    | ResultLine(line: string)   // the last summary line of the output
    | Unclear                    // "Could not parse results"
    | NotCollected               // "Pipeline failed to collect tests"

  /** The text `validate_complete_pipeline` stores under "summary". */
  function SummaryText(s: PipelineSummary): string {
    match s
    case ResultLine(line) => line
    case Unclear => "Could not parse results"
    case NotCollected => "Pipeline failed to collect tests"
  }

  datatype PipelineReport = PipelineReport(
    executionSuccess: bool,
    stdout: string,
    stderr: string,
    summary: PipelineSummary,
    passed: bool)

  /** The summary of a run that collected tests: the last result line of
      its output, or `Unclear` when there is none. */
  function CollectedSummary(stdout: string): (s: PipelineSummary)
    ensures !s.NotCollected?
    ensures s.ResultLine? ==>
      exists i :: IsLastMatch(Lines(stdout), IsResultLine, i) && s.line == Lines(stdout)[i]
    ensures s.Unclear? ==>
      forall i :: 0 <= i < |Lines(stdout)| ==> !IsResultLine(Lines(stdout)[i])
  {
    var results := Filter(Lines(stdout), IsResultLine);
    CountZero(Lines(stdout), IsResultLine);
    if |results| > 0 then
      FilterLastIsLastMatch(Lines(stdout), IsResultLine);
      ResultLine(results[|results| - 1])
    else Unclear
  }

  function ValidateCompletePipeline(run: PytestRun): (r: PipelineReport)
    ensures r.executionSuccess == run.success
    ensures r.stdout <= run.stdout && |r.stdout| <= StoredStdoutLimit
    ensures r.stderr <= run.stderr && |r.stderr| <= StoredStderrLimit
    ensures |run.stdout| <= StoredStdoutLimit ==> r.stdout == run.stdout
    ensures |run.stderr| <= StoredStderrLimit ==> r.stderr == run.stderr
    ensures r.stdout == Truncate(run.stdout, StoredStdoutLimit)
    ensures r.stderr == Truncate(run.stderr, StoredStderrLimit)
    ensures r.passed <==> Contains(run.stdout, "collected")
    ensures r.summary.NotCollected? <==> !r.passed
    ensures r.summary.ResultLine? ==>
      exists i :: IsLastMatch(Lines(run.stdout), IsResultLine, i) && r.summary.line == Lines(run.stdout)[i]
    ensures r.summary.Unclear? ==>
      forall i :: 0 <= i < |Lines(run.stdout)| ==> !IsResultLine(Lines(run.stdout)[i])
  {
    var out := if |run.stdout| > 0 then Truncate(run.stdout, StoredStdoutLimit) else "";
    var err := if |run.stderr| > 0 then Truncate(run.stderr, StoredStderrLimit) else "";
    var collected := Contains(run.stdout, "collected");
    var summary := if collected then CollectedSummary(run.stdout) else NotCollected;
    PipelineReport(run.success, out, err, summary, collected)
  }

  /** The stored summary text tells the three cases apart: it is a result
      line exactly when a result line was found. */
  lemma SummaryTextTellsCase(run: PytestRun)
    ensures var r := ValidateCompletePipeline(run);
      IsResultLine(SummaryText(r.summary)) <==> r.summary.ResultLine?
  {
    var r := ValidateCompletePipeline(run);
    if r.summary.ResultLine? {
      var i :| IsLastMatch(Lines(run.stdout), IsResultLine, i) && r.summary.line == Lines(run.stdout)[i];
    } else {
      NoEqualsNoResultLine(SummaryText(r.summary));
    }
  }

  /** A text without "=" is never a result line. */
  lemma NoEqualsNoResultLine(t: string)
    requires '=' !in t
    ensures !IsResultLine(t)
  {
    assert "=" == ['='];
    ContainsChar(t, '=');
  }

  // ---------------------------------------------------------------------
  // validate_allure_integration
  // ---------------------------------------------------------------------

  /** What the validator sees after one Allure command: whether it succeeded,
      whether the results directory exists, and how many `*.json` files it
      holds. */
  datatype AllureObservation = AllureObservation(commandSuccess: bool, resultsDirExists: bool, jsonFiles: nat)

  /** `result_files` for one test type. */
  function ResultFiles(o: AllureObservation): nat {
    if o.resultsDirExists then o.jsonFiles else 0
  }

  /** `sum(r["result_files"] for r in allure_results.values())`. */
  function TotalResultFiles(obs: seq<AllureObservation>): (total: nat)
    ensures total > 0 <==> exists i :: 0 <= i < |obs| && ResultFiles(obs[i]) > 0
  {
    if |obs| == 0 then 0
    else
      assert forall i :: 0 <= i < |obs| - 1 ==> obs[1..][i] == obs[i + 1];
      ResultFiles(obs[0]) + TotalResultFiles(obs[1..])
  }

  function ValidateAllureIntegration(obs: seq<AllureObservation>): (ok: bool)
    ensures ok <==> exists i :: 0 <= i < |obs| && obs[i].resultsDirExists && obs[i].jsonFiles > 0
  {
    TotalResultFiles(obs) > 0
  }

  // ---------------------------------------------------------------------
  // generate_validation_report
  // ---------------------------------------------------------------------

  /** The five validations, in the order they run. */
  const ValidationNames: seq<string> :=
    ["test_collection", "allure_integration", "regression_suite", "bug_discovery", "complete_pipeline"]

  /** How one validation call ended: it returned a verdict, or it raised. */
  datatype ValidationOutcome = Returned(verdict: bool) | Raised(error: string)

  /** The `results["validations"][name]` entry. */
  datatype ValidationEntry = ValidationEntry(name: string, passed: bool, error: Option<string>)

  predicate ReturnedTrue(o: ValidationOutcome) {
    o == Returned(true)
  }

  predicate ReturnedFalse(o: ValidationOutcome) {
    o == Returned(false)
  }

  predicate DidRaise(o: ValidationOutcome) {
    o.Raised?
  }

  /** The entry recorded for one validation: its verdict when it returned,
      `passed = False` with the error text when it raised. */
  function EntryFor(name: string, o: ValidationOutcome): (e: ValidationEntry)
    ensures e.name == name
    ensures e.passed <==> ReturnedTrue(o)
    ensures e.error.Some? <==> o.Raised?
    ensures o.Raised? ==> e.error == Some(o.error)
  {
    match o
    case Returned(verdict) => ValidationEntry(name, verdict, None)
    case Raised(error) => ValidationEntry(name, false, Some(error))
  }

  /** The loop of `generate_validation_report` over the validations' outcomes. */
  method GenerateValidationReport(names: seq<string>, outcomes: seq<ValidationOutcome>)
    returns (entries: seq<ValidationEntry>, overallSuccess: bool, passedCount: nat, failedCount: nat)
    requires |names| == |outcomes|
    ensures |entries| == |outcomes|
    ensures forall i :: 0 <= i < |entries| ==> entries[i] == EntryFor(names[i], outcomes[i])
    ensures overallSuccess <==> forall i :: 0 <= i < |outcomes| ==> ReturnedTrue(outcomes[i])
    ensures passedCount == Count(outcomes, ReturnedTrue)
    ensures failedCount == Count(outcomes, ReturnedFalse)
    ensures passedCount + failedCount + Count(outcomes, DidRaise) == |outcomes|
  {
    entries := [];
    overallSuccess := true;
    passedCount := 0;
    failedCount := 0;
    var raisedCount := 0;
    for k := 0 to |outcomes|
      invariant |entries| == k
      invariant forall i :: 0 <= i < k ==> entries[i] == EntryFor(names[i], outcomes[i])
      invariant overallSuccess <==> forall i :: 0 <= i < k ==> ReturnedTrue(outcomes[i])
      invariant passedCount == Count(outcomes[..k], ReturnedTrue)
      invariant failedCount == Count(outcomes[..k], ReturnedFalse)
      invariant raisedCount == Count(outcomes[..k], DidRaise)
    {
      CountPrefixStep(outcomes, k, ReturnedTrue);
      CountPrefixStep(outcomes, k, ReturnedFalse);
      CountPrefixStep(outcomes, k, DidRaise);
      entries := entries + [EntryFor(names[k], outcomes[k])];
      match outcomes[k]
      case Returned(verdict) =>
        assert ReturnedTrue(outcomes[k]) <==> verdict;
        assert ReturnedFalse(outcomes[k]) <==> !verdict;
        assert !DidRaise(outcomes[k]);
        if !verdict {
          overallSuccess := false;
          failedCount := failedCount + 1;
        } else {
          passedCount := passedCount + 1;
        }
      case Raised(_) =>
        assert !ReturnedTrue(outcomes[k]) && !ReturnedFalse(outcomes[k]) && DidRaise(outcomes[k]);
        overallSuccess := false;
        raisedCount := raisedCount + 1;
    }
    assert outcomes[..|outcomes|] == outcomes;
    PassedFailedRaisedPartition(outcomes);
  }

  /** For the five validations `generate_validation_report` runs: the two counters never exceed
      five, and reach it exactly when no validation raised. */
  lemma CountersAccountForEveryValidation(outcomes: seq<ValidationOutcome>)
    requires |outcomes| == |ValidationNames|
    ensures Count(outcomes, ReturnedTrue) + Count(outcomes, ReturnedFalse) <= 5
    ensures Count(outcomes, ReturnedTrue) + Count(outcomes, ReturnedFalse) == 5 <==>
      forall i :: 0 <= i < |outcomes| ==> !outcomes[i].Raised?
  {
    PassedFailedRaisedPartition(outcomes);
    CountZero(outcomes, DidRaise);
  }

  /** Every outcome is exactly one of returned-true, returned-false, raised. */
  lemma {:induction false} PassedFailedRaisedPartition(outcomes: seq<ValidationOutcome>)
    ensures Count(outcomes, ReturnedTrue) + Count(outcomes, ReturnedFalse) + Count(outcomes, DidRaise) == |outcomes|
    decreases |outcomes|
  {
    if |outcomes| > 0 {
      PassedFailedRaisedPartition(outcomes[..|outcomes| - 1]);
    }
  }

  // ---------------------------------------------------------------------
  // Cross-cutting facts
  // ---------------------------------------------------------------------

  /** A pytest run that timed out or could not be started fails every
      validation that reads its output. */
  lemma UnstartedRunFailsEveryCheck(e: Execution)
    requires !e.Exited?
    ensures CollectionCountOf(RunPytestCommand(e)) == CollectionFailed
    ensures RecordedCount(CollectionCountOf(RunPytestCommand(e))) == -1
    ensures !ValidateRegressionSuite(RunPytestCommand(e)).passed
    ensures !ValidateBugDiscovery(RunPytestCommand(e))
    ensures !ValidateCompletePipeline(RunPytestCommand(e)).passed
  {
  }
}
