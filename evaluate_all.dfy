/** The multi-file evaluator (task1/evaluation/evaluate_all.py): evaluate
    each TSV file on its own, with fresh counters, collect the per-file WER
    and LER in argument order and report their macro-averages. */
module EvaluateAll {
  import opened Wrappers
  import opened EvalLib
  import opened Evaluate

  /** What `main` computes: one WER and one LER per file, and their means. */
  datatype Summary = Summary(wers: seq<real>, lers: seq<real>, macroWer: real, macroLer: real)

  function Sum(xs: seq<real>): real {
    if xs == [] then 0.0 else Sum(xs[..|xs| - 1]) + xs[|xs| - 1]
  }

  /** `statistics.mean`, defined for a non-empty list only. */
  function Mean(xs: seq<real>): (r: real)
    requires |xs| > 0
    ensures r * |xs| as real == Sum(xs)
  {
    Sum(xs) / |xs| as real
  }

  lemma {:induction false} SumAtLeast(xs: seq<real>, lo: real)
    requires forall k :: 0 <= k < |xs| ==> lo <= xs[k]
    ensures lo * |xs| as real <= Sum(xs)
  {
    if xs != [] {
      var init := xs[..|xs| - 1];
      SumAtLeast(init, lo);
      assert lo * |xs| as real == lo * |init| as real + lo;
    }
  }

  lemma {:induction false} SumAtMost(xs: seq<real>, hi: real)
    requires forall k :: 0 <= k < |xs| ==> xs[k] <= hi
    ensures Sum(xs) <= hi * |xs| as real
  {
    if xs != [] {
      var init := xs[..|xs| - 1];
      SumAtMost(init, hi);
      assert hi * |xs| as real == hi * |init| as real + hi;
    }
  }

  /** The mean lies at or above any lower bound of the values... */
  lemma MeanAtLeast(xs: seq<real>, lo: real)
    requires |xs| > 0
    requires forall k :: 0 <= k < |xs| ==> lo <= xs[k]
    ensures lo <= Mean(xs)
  {
    SumAtLeast(xs, lo);
    var n := |xs| as real;
    assert Mean(xs) * n == Sum(xs);
  }

  /** ...and at or below any upper bound. */
  lemma MeanAtMost(xs: seq<real>, hi: real)
    requires |xs| > 0
    requires forall k :: 0 <= k < |xs| ==> xs[k] <= hi
    ensures Mean(xs) <= hi
  {
    SumAtMost(xs, hi);
    var n := |xs| as real;
    assert Mean(xs) * n == Sum(xs);
  }

  /** Reference definition of the per-file loop. */
  function FileReports(files: seq<seq<string>>): Result<seq<Report>, EvalError> {
    Collect(files, FileReport)
  }

  /** The WER column of a list of reports. */
  function Wers(reports: seq<Report>): (wers: seq<real>)
    ensures |wers| == |reports| && forall k :: 0 <= k < |reports| ==> wers[k] == reports[k].wer
  {
    if reports == [] then [] else Wers(reports[..|reports| - 1]) + [reports[|reports| - 1].wer]
  }

  /** The LER column of a list of reports. */
  function Lers(reports: seq<Report>): (lers: seq<real>)
    ensures |lers| == |reports| && forall k :: 0 <= k < |reports| ==> lers[k] == reports[k].ler
  {
    if reports == [] then [] else Lers(reports[..|reports| - 1]) + [reports[|reports| - 1].ler]
  }

  lemma ColumnsStep(reports: seq<Report>, report: Report)
    ensures Wers(reports + [report]) == Wers(reports) + [report.wer]
    ensures Lers(reports + [report]) == Lers(reports) + [report.ler]
  {
    assert (reports + [report])[..|reports|] == reports;
  }

  /** Reference definition of what `main` computes; argparse's `nargs="+"`
      guarantees at least one file. */
  function Summarize(files: seq<seq<string>>): Result<Summary, EvalError>
    requires |files| > 0
  {
    match FileReports(files)
    case Failure(e) => Failure(e)
    case Success(reports) =>
      Success(Summary(Wers(reports), Lers(reports), Mean(Wers(reports)), Mean(Lers(reports))))
  }

  /** `main`: for each file, fresh counters folded over its scores, the two
      rates appended, and finally the two means. */
  method EvaluateFiles(files: seq<seq<string>>) returns (r: Result<Summary, EvalError>)
    requires |files| > 0
    ensures r == Summarize(files)
  {
    var wers: seq<real> := [];
    var lers: seq<real> := [];
    var i := 0;
    while i < |files|
      invariant 0 <= i <= |files|
      invariant FileReports(files[..i]).Success?
      invariant wers == Wers(FileReports(files[..i]).value)
      invariant lers == Lers(FileReports(files[..i]).value)
    {
      // The per-file block (fresh counters, the scoring loop and both
      // divisions) is the single-file evaluator's.
      var report := EvaluateFile(files[i]);
      if report.Failure? {
        CollectFirstFailure(files, FileReport, i);
        SummarizeCases(files);
        return Failure(report.error);
      }
      CollectStep(files, FileReport, i);
      ColumnsStep(FileReports(files[..i]).value, report.value);
      wers := wers + [report.value.wer];
      lers := lers + [report.value.ler];
      i := i + 1;
    }
    assert files[..i] == files;
    SummarizeCases(files);
    r := Success(Summary(wers, lers, Mean(wers), Mean(lers)));
  }

  /** The two ways `Summarize` unfolds. */
  lemma SummarizeCases(files: seq<seq<string>>)
    requires |files| > 0
    ensures FileReports(files).Failure? ==> Summarize(files) == Failure(FileReports(files).error)
    ensures FileReports(files).Success? ==>
      var v := FileReports(files).value;
      Summarize(files) == Success(Summary(Wers(v), Lers(v), Mean(Wers(v)), Mean(Lers(v))))
  {
  }

  /** One entry per file, in argument order, each the single-file result;
      every WER is a percentage and the macro-averages are the means. */
  lemma SummaryFacts(files: seq<seq<string>>)
    requires |files| > 0 && Summarize(files).Success?
    ensures var s := Summarize(files).value;
      && |s.wers| == |files| && |s.lers| == |files|
      && (forall k :: 0 <= k < |files| ==>
            s.wers[k] == FileReport(files[k]).value.wer && s.lers[k] == FileReport(files[k]).value.ler)
      && (forall k :: 0 <= k < |files| ==> 0.0 <= s.wers[k] <= 100.0 && 0.0 <= s.lers[k])
      && s.macroWer == Mean(s.wers) && s.macroLer == Mean(s.lers)
  {
  }

  /** The macro-averaged WER is a percentage and the macro-averaged LER is
      non-negative. */
  lemma MacroBounds(files: seq<seq<string>>)
    requires |files| > 0 && Summarize(files).Success?
    ensures 0.0 <= Summarize(files).value.macroWer <= 100.0
    ensures 0.0 <= Summarize(files).value.macroLer
  {
    var s := Summarize(files).value;
    SummaryFacts(files);
    MeanAtLeast(s.wers, 0.0);
    MeanAtMost(s.wers, 100.0);
    MeanAtLeast(s.lers, 0.0);
  }

  /** The run succeeds exactly when every file does on its own. */
  lemma SummarizeSucceeds(files: seq<seq<string>>)
    requires |files| > 0
    ensures Summarize(files).Success? <==> forall k :: 0 <= k < |files| ==> FileReport(files[k]).Success?
  {
  }
}
