/** The sequential logic of run_qa_pipeline.py: choosing the report port,
    folding the per-test Allure result files into a run summary, deriving the
    "Current" entries of the trend widgets, and the percentages of the
    fallback HTML report. Sockets, subprocesses, files and clocks are not
    modelled: the bind attempt is an oracle and the result files arrive as
    already-read values. */
module QaPipeline {
  import opened Options
  import opened Seqs

  // ---------------------------------------------------------------------
  // find_available_port
  // ---------------------------------------------------------------------

  /** How many consecutive ports are tried. */
  const PortWindow: nat := 100

  /** The start port `main` passes. */
  const DefaultStartPort: int := 64678

  /** Ports a socket can be bound to without `OverflowError`. */
  predicate IsPortNumber(port: int) {
    0 <= port <= 65535
  }

  /** The bind attempt on `port` succeeds; `bindable` stands for the
      operating system's answer. */
  predicate Binds(bindable: int -> bool, port: int) {
    IsPortNumber(port) && bindable(port)
  }

  /** The outcome of `find_available_port`: a port, or the `OverflowError`
      that escapes the loop (only `OSError` is caught) when a port number
      outside 0..65535 is tried. */
  datatype PortChoice = Port(port: int) | Overflow(attempted: int)

  method FindAvailablePort(start: int, bindable: int -> bool) returns (r: PortChoice)
    ensures r.Port? ==> start <= r.port < start + PortWindow
    ensures r.Port? && Binds(bindable, r.port) ==>
      forall q :: start <= q < r.port ==> IsPortNumber(q) && !bindable(q)
    ensures r.Port? && !Binds(bindable, r.port) ==>
      r.port == start && forall q :: start <= q < start + PortWindow ==> IsPortNumber(q) && !bindable(q)
    ensures r.Overflow? ==>
      && start <= r.attempted < start + PortWindow
      && !IsPortNumber(r.attempted)
      && forall q :: start <= q < r.attempted ==> IsPortNumber(q) && !bindable(q)
    ensures 0 <= start && start + PortWindow <= 65536 ==> r.Port?
  {
    var port := start;
    while port < start + PortWindow
      invariant start <= port <= start + PortWindow
      invariant forall q :: start <= q < port ==> IsPortNumber(q) && !bindable(q)
    {
      if !IsPortNumber(port) {
        return Overflow(port);
      }
      if bindable(port) {
        return Port(port);
      }
      port := port + 1;
    }
    return Port(start);
  }

  /** The report port `main` asks for: the search from 64678 stays inside the
      port range, so it always ends with a port of the window, one that binds
      unless none of the window does. */
  method ReportPort(bindable: int -> bool) returns (port: int)
    ensures DefaultStartPort <= port < DefaultStartPort + PortWindow && IsPortNumber(port)
    ensures bindable(port) ==> forall q :: DefaultStartPort <= q < port ==> !bindable(q)
    ensures !bindable(port) ==>
      port == DefaultStartPort && forall q :: DefaultStartPort <= q < DefaultStartPort + PortWindow ==> !bindable(q)
  {
    var r := FindAvailablePort(DefaultStartPort, bindable);
    port := r.port;
  }

  // ---------------------------------------------------------------------
  // Counting the result files
  // ---------------------------------------------------------------------

  /** One `*-result.json` file as `main` sees it. `status` is `None` when
      the key is missing or holds a non-string, which compare unequal to
      every status name just as a missing key does. */
  datatype ResultFile =
    | Unreadable                        // opening or `json.load` raised
    | NotAnObject                       // valid JSON without `.get`: raises after `total += 1`
    | Record(status: Option<string>)    // a JSON object

  /** The file was loaded, so it was counted in `total`. */
  predicate IsLoaded(f: ResultFile) {
    !f.Unreadable?
  }

  predicate IsPassed(f: ResultFile) {
    f.Record? && f.status == Some("passed")
  }

  predicate IsFailed(f: ResultFile) {
    f.Record? && (f.status == Some("failed") || f.status == Some("broken"))
  }

  /** Loaded, but neither passed nor failed: skipped, unknown, missing
      status, or not an object. */
  predicate IsOther(f: ResultFile) {
    IsLoaded(f) && !IsPassed(f) && !IsFailed(f)
  }

  /** The `(total, passed, failed)` triple of one run. */
  datatype RunSummary = RunSummary(total: nat, passed: nat, failed: nat)

  /** The run summary of a list of result files, stated by what each counter
      counts. */
  function Summarize(files: seq<ResultFile>): RunSummary {
    RunSummary(Count(files, IsLoaded), Count(files, IsPassed), Count(files, IsFailed))
  }

  /** The counting loop of `main`, in the order `glob` lists the files. */
  method AggregateResults(files: seq<ResultFile>) returns (s: RunSummary)
    ensures s == Summarize(files)
    ensures s.passed + s.failed <= s.total
  {
    var total, passed, failed := 0, 0, 0;
    for k := 0 to |files|
      invariant total == Count(files[..k], IsLoaded)
      invariant passed == Count(files[..k], IsPassed)
      invariant failed == Count(files[..k], IsFailed)
    {
      CountPrefixStep(files, k, IsLoaded);
      CountPrefixStep(files, k, IsPassed);
      CountPrefixStep(files, k, IsFailed);
      match files[k]
      case Unreadable =>
      case NotAnObject =>
        total := total + 1;
      case Record(status) =>
        total := total + 1;
        if status == Some("passed") {
          passed := passed + 1;
        } else if status == Some("failed") || status == Some("broken") {
          failed := failed + 1;
        }
    }
    assert files[..|files|] == files;
    SummaryPartition(files);
    s := RunSummary(total, passed, failed);
  }

  /** Every loaded file is exactly one of passed, failed or other, so
      `total == passed + failed + others`. */
  lemma {:induction false} SummaryPartition(files: seq<ResultFile>)
    ensures Count(files, IsLoaded) == Count(files, IsPassed) + Count(files, IsFailed) + Count(files, IsOther)
    decreases |files|
  {
    if |files| > 0 {
      SummaryPartition(files[..|files| - 1]);
    }
  }

  /** The summary does not depend on the order in which `glob` lists the
      files. */
  lemma SummaryIgnoresOrder(files: seq<ResultFile>, reordered: seq<ResultFile>)
    requires multiset(files) == multiset(reordered)
    ensures Summarize(files) == Summarize(reordered)
  {
    CountPermutation(files, reordered, IsLoaded);
    CountPermutation(files, reordered, IsPassed);
    CountPermutation(files, reordered, IsFailed);
  }

  /** An unreadable file changes nothing, wherever it sits. */
  lemma UnreadableContributesNothing(before: seq<ResultFile>, after: seq<ResultFile>)
    ensures Summarize(before + [Unreadable] + after) == Summarize(before + after)
  {
    var p := [Unreadable];
    CountAppend(before + p, after, IsLoaded);
    CountAppend(before, p, IsLoaded);
    CountAppend(before, after, IsLoaded);
    CountAppend(before + p, after, IsPassed);
    CountAppend(before, p, IsPassed);
    CountAppend(before, after, IsPassed);
    CountAppend(before + p, after, IsFailed);
    CountAppend(before, p, IsFailed);
    CountAppend(before, after, IsFailed);
  }

  /** `total` is the number of files that loaded. */
  lemma {:induction false} TotalCountsLoadedFiles(files: seq<ResultFile>)
    ensures Summarize(files).total == |Filter(files, IsLoaded)|
    ensures Summarize(files).total == |files| <==> forall i :: 0 <= i < |files| ==> !files[i].Unreadable?
  {
    CountAll(files, IsLoaded);
  }

  // ---------------------------------------------------------------------
  // Trend widgets
  // ---------------------------------------------------------------------

  /** One entry of a trend widget. */
  datatype TrendPoint<D> = TrendPoint(buildOrder: int, reportName: string, data: D)

  datatype HistoryData = HistoryData(failed: int, broken: int, skipped: int, passed: int, unknown: int, total: int)

  datatype CategoriesData = CategoriesData(productDefects: int, testDefects: int, environmentIssues: int, automationIssues: int)

  datatype RetryData = RetryData(retry: int, run: int)

  datatype DurationData = DurationData(duration: int)

  const CurrentReportName: string := "OpenFilter QA Report - Current"

  function RunName(n: nat): string {
    "OpenFilter QA Report - Run " + [('0' as int + n % 10) as char]
  }

  /** Build orders are strictly decreasing from the first entry to the
      last. */
  ghost predicate BuildOrdersDescending<D>(w: seq<TrendPoint<D>>) {
    forall i, j :: 0 <= i < j < |w| ==> w[i].buildOrder > w[j].buildOrder
  }

  /** Five entries, build orders 5, 4, 3, 2 for the samples and 1 for the
      current run, which comes last under the "Current" name. */
  ghost predicate WellFormedTrend<D>(w: seq<TrendPoint<D>>) {
    && |w| == 5
    && BuildOrdersDescending(w)
    && (forall i :: 0 <= i < 5 ==> w[i].buildOrder == 5 - i)
    && w[4].reportName == CurrentReportName
  }

  /** Four fixed sample entries (build orders 5 down to 2) followed by the
      current run. */
  function Trend<D>(samples: seq<D>, current: D): (w: seq<TrendPoint<D>>)
    requires |samples| == 4
    ensures WellFormedTrend(w)
    ensures forall i :: 0 <= i < 4 ==> w[i].data == samples[i]
    ensures w[4].data == current
  {
    seq(5, i requires 0 <= i < 5 =>
      if i < 4 then TrendPoint(5 - i, RunName(5 - i), samples[i])
      else TrendPoint(1, CurrentReportName, current))
  }

  /** The "Current" entry of history-trend.json. */
  function CurrentHistory(s: RunSummary): HistoryData {
    HistoryData(s.failed, 0, 0, s.passed, 0, s.total)
  }

  /** The four sample entries of history-trend.json. */
  const HistorySamples: seq<HistoryData> := [
    HistoryData(6, 3, 0, 26, 0, 35),
    HistoryData(4, 2, 1, 28, 0, 35),
    HistoryData(6, 3, 0, 26, 0, 35),
    HistoryData(9, 0, 0, 26, 0, 35)
  ]

  function HistoryTrend(s: RunSummary): seq<TrendPoint<HistoryData>> {
    Trend(HistorySamples, CurrentHistory(s))
  }

  /** The history widget: the four samples, then the current run with its
      passed, failed and total copied unchanged and nothing broken, skipped
      or unknown. */
  lemma HistoryTrendShape(s: RunSummary)
    ensures WellFormedTrend(HistoryTrend(s))
    ensures forall i :: 0 <= i < 4 ==> HistoryTrend(s)[i].data == HistorySamples[i]
    ensures var cur := HistoryTrend(s)[4].data;
      && cur.passed == s.passed && cur.failed == s.failed && cur.total == s.total
      && cur.broken == 0 && cur.skipped == 0 && cur.unknown == 0
  {
  }

  /** The categories of an entry never outnumber its total. */
  predicate Consistent(h: HistoryData) {
    h.failed + h.broken + h.skipped + h.passed + h.unknown <= h.total
  }

  /** Every entry of the history widget is consistent when the summary comes
      from the result files; the samples account for their total exactly. */
  lemma HistoryTrendConsistent(files: seq<ResultFile>)
    ensures forall i :: 0 <= i < 5 ==> Consistent(HistoryTrend(Summarize(files))[i].data)
    ensures forall i :: 0 <= i < 4 ==>
      var h := HistorySamples[i];
      h.failed + h.broken + h.skipped + h.passed + h.unknown == h.total
  {
    SummaryPartition(files);
  }

  /** The "Current" entry of categories-trend.json. */
  function CurrentCategories(s: RunSummary): (c: CategoriesData)
    ensures c.productDefects >= 0 && c.testDefects >= 0
    ensures c.productDefects + c.testDefects == s.failed
    ensures c.testDefects == 1 <==> s.failed > 0
    ensures c.environmentIssues == 0 && c.automationIssues == 0
  {
    CategoriesData(if s.failed - 1 > 0 then s.failed - 1 else 0, if s.failed > 0 then 1 else 0, 0, 0)
  }

  const CategorySamples: seq<CategoriesData> := [
    CategoriesData(4, 2, 3, 0),
    CategoriesData(3, 1, 2, 1),
    CategoriesData(5, 2, 2, 0),
    CategoriesData(6, 1, 2, 0)
  ]

  function CategoriesTrend(s: RunSummary): seq<TrendPoint<CategoriesData>> {
    Trend(CategorySamples, CurrentCategories(s))
  }

  /** The "Current" entry of retry-trend.json. */
  function CurrentRetries(s: RunSummary): (r: RetryData)
    ensures 0 <= r.retry <= 2 && r.retry <= s.failed
    ensures r.retry == 2 || r.retry == s.failed
    ensures r.run == s.total
  {
    RetryData(if s.failed < 2 then s.failed else 2, s.total)
  }

  const RetrySamples: seq<RetryData> := [RetryData(2, 35), RetryData(1, 35), RetryData(3, 35), RetryData(4, 35)]

  function RetryTrend(s: RunSummary): seq<TrendPoint<RetryData>> {
    Trend(RetrySamples, CurrentRetries(s))
  }

  /** Base duration of the current run, in milliseconds. */
  const BaseDurationMs: int := 11350

  /** Extra milliseconds per failed test. */
  const FailurePenaltyMs: int := 200

  /** The "Current" entry of duration-trend.json. */
  function CurrentDuration(s: RunSummary): (d: DurationData)
    ensures d.duration >= BaseDurationMs
    ensures d.duration == BaseDurationMs <==> s.failed == 0
  {
    DurationData(BaseDurationMs + s.failed * FailurePenaltyMs)
  }

  /** More failures always mean a longer reported duration. */
  lemma DurationStrictlyIncreasing(a: RunSummary, b: RunSummary)
    requires a.failed < b.failed
    ensures CurrentDuration(a).duration < CurrentDuration(b).duration
  {
  }

  const DurationSamples: seq<DurationData> :=
    [DurationData(12450), DurationData(11780), DurationData(13220), DurationData(14100)]

  function DurationTrend(s: RunSummary): seq<TrendPoint<DurationData>> {
    Trend(DurationSamples, CurrentDuration(s))
  }

  // ---------------------------------------------------------------------
  // create_basic_html_report percentages
  // ---------------------------------------------------------------------

  /** Pass rate and bug-discovery rate, in percent. */
  datatype Rates = Rates(passRate: real, failRate: real)

  /** The two rates as written: `passed/total*100` and `failed/total*100`
      with no guard, so an empty run raises `ZeroDivisionError` (`None`). */
  function BasicReportRates(s: RunSummary): (r: Option<Rates>)
    ensures r.None? <==> s.total == 0
    ensures r.Some? ==> r.value.passRate * (s.total as real) == (s.passed as real) * 100.0
    ensures r.Some? ==> r.value.failRate * (s.total as real) == (s.failed as real) * 100.0
  {
    if s.total == 0 then None
    else
      var t := s.total as real;
      Some(Rates(s.passed as real / t * 100.0, s.failed as real / t * 100.0))
  }

  /** A run with no loadable result file (pytest wrote none, or all were
      malformed) makes the fallback report divide by zero. */
  lemma EmptyRunBreaksBasicReport(files: seq<ResultFile>)
    requires forall i :: 0 <= i < |files| ==> files[i] == Unreadable
    ensures BasicReportRates(Summarize(files)) == None
  {
    CountZero(files, IsLoaded);
  }

  /** The rates the report shows: "no data" for an empty run. */
  datatype RateReport = NoData | Percentages(rates: Rates)

  /** The rates with the zero-total guard the report needs. */
  function GuardedRates(s: RunSummary): (r: RateReport)
    ensures r.NoData? <==> s.total == 0
    ensures r.Percentages? ==> Some(r.rates) == BasicReportRates(s)
  {
    match BasicReportRates(s)
    case None => NoData
    case Some(rates) => Percentages(rates)
  }

  /** A share of a positive whole, in percent, lies in [0, 100]. */
  lemma PercentOfWhole(part: real, whole: real)
    requires 0.0 <= part <= whole && whole > 0.0
    ensures 0.0 <= part / whole * 100.0 <= 100.0
  {
  }

  /** Percentages of one whole add up like the parts do. */
  lemma PercentsAdd(a: real, b: real, whole: real)
    requires whole > 0.0
    ensures a / whole * 100.0 + b / whole * 100.0 == (a + b) / whole * 100.0
  {
  }

  /** For a summary built from result files, both rates lie in [0, 100] and
      together do not exceed 100. */
  lemma GuardedRatesBounded(files: seq<ResultFile>)
    ensures GuardedRates(Summarize(files)).Percentages? ==>
      var r := GuardedRates(Summarize(files)).rates;
      && 0.0 <= r.passRate <= 100.0
      && 0.0 <= r.failRate <= 100.0
      && r.passRate + r.failRate <= 100.0
  {
    var s := Summarize(files);
    SummaryPartition(files);
    if s.total > 0 {
      var t := s.total as real;
      var p := s.passed as real;
      var f := s.failed as real;
      PercentOfWhole(p, t);
      PercentOfWhole(f, t);
      PercentOfWhole(p + f, t);
      PercentsAdd(p, f, t);
    }
  }

  /** The figures of the fallback HTML report. */
  datatype BasicReport = BasicReport(total: nat, passed: nat, failed: nat, rates: RateReport)

  function MakeBasicReport(s: RunSummary): (b: BasicReport)
    ensures b.total == s.total && b.passed == s.passed && b.failed == s.failed
    ensures b.rates.NoData? <==> s.total == 0
    ensures b.rates.Percentages? ==> Some(b.rates.rates) == BasicReportRates(s)
    ensures b.rates.Percentages? ==>
      && b.rates.rates.passRate * (b.total as real) == (b.passed as real) * 100.0
      && b.rates.rates.failRate * (b.total as real) == (b.failed as real) * 100.0
  {
    BasicReport(s.total, s.passed, s.failed, GuardedRates(s))
  }
}
