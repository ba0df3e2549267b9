/** The single-file evaluator (task1/evaluation/evaluate.py): score every
    gold/hypothesis pair, fold the scores into word-level and label-level
    counters, and report word and label error rates as percentages. */
module Evaluate {
  import opened Wrappers
  import opened EvalLib

  /** `(edits, length)` as returned by `score`. */
  type Stat = (nat, nat)

  type Pair = (seq<string>, seq<string>)

  /** The counters of `main`: examples right and wrong, edits and gold labels. */
  datatype Counters = Counters(correct: nat, incorrect: nat, totalEdits: nat, totalLength: nat)

  datatype EvalError =
    | MalformedLine       // a line without a tab (ValueError while unpacking)
    | WerDivisionByZero   // no examples: `correct + incorrect` is 0
    | LerDivisionByZero   // no gold labels at all: `total_length` is 0

  datatype Report = Report(wer: real, ler: real)

  /** Number of scores with no edits. */
  function CountExact(stats: seq<Stat>): (n: nat)
    ensures n <= |stats|
  {
    if stats == [] then 0
    else CountExact(stats[..|stats| - 1]) + (if stats[|stats| - 1].0 == 0 then 1 else 0)
  }

  function SumEdits(stats: seq<Stat>): nat {
    if stats == [] then 0 else SumEdits(stats[..|stats| - 1]) + stats[|stats| - 1].0
  }

  function SumLengths(stats: seq<Stat>): nat {
    if stats == [] then 0 else SumLengths(stats[..|stats| - 1]) + stats[|stats| - 1].1
  }

  /** Number of pairs whose hypothesis is exactly the gold sequence. */
  function ExactMatches(pairs: seq<Pair>): (n: nat)
    ensures n <= |pairs|
  {
    if pairs == [] then 0
    else ExactMatches(pairs[..|pairs| - 1]) + (if pairs[|pairs| - 1].0 == pairs[|pairs| - 1].1 then 1 else 0)
  }

  /** Total number of gold labels. */
  function GoldLabels(pairs: seq<Pair>): nat {
    if pairs == [] then 0 else GoldLabels(pairs[..|pairs| - 1]) + |pairs[|pairs| - 1].0|
  }

  /** `pool.starmap(evallib.score, ...)`, an order-preserving map. */
  function Scores(pairs: seq<Pair>): (stats: seq<Stat>)
    ensures |stats| == |pairs|
  {
    if pairs == [] then []
    else Scores(pairs[..|pairs| - 1]) + [Score(pairs[|pairs| - 1].0, pairs[|pairs| - 1].1)]
  }

  /** Each score is the score of the pair in the same position. */
  lemma {:induction false} ScoresAt(pairs: seq<Pair>, k: nat)
    requires k < |pairs|
    ensures Scores(pairs)[k] == Score(pairs[k].0, pairs[k].1)
  {
    if k < |pairs| - 1 {
      ScoresAt(pairs[..|pairs| - 1], k);
    }
  }

  /** The loop of `main`: one step per example, each example counted as
      either correct or incorrect. */
  method Tally(stats: seq<Stat>) returns (c: Counters)
    ensures c.correct + c.incorrect == |stats|
    ensures c.correct == CountExact(stats)
    ensures c.totalEdits == SumEdits(stats) && c.totalLength == SumLengths(stats)
  {
    var correct, incorrect, totalEdits, totalLength := 0, 0, 0, 0;
    var i := 0;
    while i < |stats|
      invariant 0 <= i <= |stats|
      invariant correct + incorrect == i
      invariant correct == CountExact(stats[..i])
      invariant totalEdits == SumEdits(stats[..i]) && totalLength == SumLengths(stats[..i])
    {
      var (edits, length) := stats[i];
      if edits == 0 {
        correct := correct + 1;
      } else {
        incorrect := incorrect + 1;
      }
      totalEdits := totalEdits + edits;
      totalLength := totalLength + length;
      assert stats[..i + 1][..i] == stats[..i];
      i := i + 1;
    }
    assert stats[..i] == stats;
    c := Counters(correct, incorrect, totalEdits, totalLength);
  }

  /** `100 * part / whole`: never negative, 0 exactly when `part` is, and
      within 100 (reaching it exactly at `whole`) when `part <= whole`. */
  function Percent(part: nat, whole: nat): (r: real)
    requires whole > 0
    ensures r >= 0.0 && (r == 0.0 <==> part == 0)
    ensures part <= whole ==> r <= 100.0 && (r == 100.0 <==> part == whole)
  {
    PercentFacts(part, whole);
    100.0 * part as real / whole as real
  }

  lemma PercentFacts(part: nat, whole: nat)
    requires whole > 0
    ensures var q := 100.0 * part as real / whole as real;
      && q >= 0.0 && (q == 0.0 <==> part == 0)
      && (part <= whole ==> q <= 100.0 && (q == 100.0 <==> part == whole))
  {
    var p, w := 100.0 * part as real, whole as real;
    var q := p / w;
    assert q * w == p;
    QuotientSigns(p, w, q);
    assert p == 0.0 <==> part == 0;
    assert p <= 100.0 * w <==> part <= whole;
    assert p == 100.0 * w <==> part == whole;
  }

  /** How a quotient `q = p / w` with positive `w` compares with 0 and 100. */
  lemma QuotientSigns(p: real, w: real, q: real)
    requires w > 0.0 && q * w == p
    ensures q >= 0.0 <==> p >= 0.0
    ensures q == 0.0 <==> p == 0.0
    ensures q <= 100.0 <==> p <= 100.0 * w
    ensures q == 100.0 <==> p == 100.0 * w
  {
    QuotientOrder(0.0, q, w);
    QuotientOrder(q, 0.0, w);
    QuotientOrder(100.0, q, w);
    QuotientOrder(q, 100.0, w);
  }

  /** Multiplying by a positive factor keeps the order of two reals. */
  lemma QuotientOrder(a: real, b: real, w: real)
    requires w > 0.0
    ensures a * w <= b * w <==> a <= b
  {
  }

  /** `100 * incorrect / (correct + incorrect)`: a percentage, 0 exactly
      when every example is correct and 100 exactly when none is. */
  function WordErrorRate(c: Counters): (r: Result<real, EvalError>)
    ensures r.Failure? <==> c.correct + c.incorrect == 0
    ensures r.Failure? ==> r.error == WerDivisionByZero
    ensures r.Success? ==> 0.0 <= r.value <= 100.0
    ensures r.Success? ==> (r.value == 0.0 <==> c.incorrect == 0)
    ensures r.Success? ==> (r.value == 100.0 <==> c.correct == 0)
  {
    var n := c.correct + c.incorrect;
    if n == 0 then Failure(WerDivisionByZero)
    else Success(Percent(c.incorrect, n))
  }

  /** `100 * total_edits / total_length`: non-negative, 0 exactly when no
      edit was made; it can exceed 100 when hypotheses are longer. */
  function LabelErrorRate(c: Counters): (r: Result<real, EvalError>)
    ensures r.Failure? <==> c.totalLength == 0
    ensures r.Failure? ==> r.error == LerDivisionByZero
    ensures r.Success? ==> r.value >= 0.0 && (r.value == 0.0 <==> c.totalEdits == 0)
  {
    if c.totalLength == 0 then Failure(LerDivisionByZero)
    else Success(Percent(c.totalEdits, c.totalLength))
  }

  /** The two figures printed, WER first: its division is the first to fail. */
  function Rates(c: Counters): (r: Result<Report, EvalError>)
    ensures r.Success? <==> WordErrorRate(c).Success? && LabelErrorRate(c).Success?
    ensures r.Failure? ==> r.error == if WordErrorRate(c).Failure? then WerDivisionByZero else LerDivisionByZero
  {
    match WordErrorRate(c)
    case Failure(e) => Failure(e)
    case Success(wer) =>
      match LabelErrorRate(c)
      case Failure(e) => Failure(e)
      case Success(ler) => Success(Report(wer, ler))
  }

  /** Reference definition of what `main` reports for one file. */
  function FileReport(lines: seq<string>): Result<Report, EvalError> {
    var parsed := TsvReader(lines);
    if parsed.Failure? then Failure(MalformedLine)
    else Rates(Counted(Scores(parsed.value)))
  }

  /** The two ways `FileReport` unfolds. */
  lemma FileReportCases(lines: seq<string>)
    ensures TsvReader(lines).Failure? ==> FileReport(lines) == Failure(MalformedLine)
    ensures TsvReader(lines).Success? ==>
      FileReport(lines) == Rates(Counted(Scores(TsvReader(lines).value)))
  {
  }

  /** The counters that the loop of `main` must end with. */
  function Counted(stats: seq<Stat>): Counters {
    var exact := CountExact(stats);
    Counters(exact, |stats| - exact, SumEdits(stats), SumLengths(stats))
  }

  /** One more example moves exactly one of `correct` and `incorrect` up by
      one and adds its edits and gold length: the counters only grow. */
  lemma CountedStep(stats: seq<Stat>, i: nat)
    requires i < |stats|
    ensures var before, after := Counted(stats[..i]), Counted(stats[..i + 1]);
      && after.correct + after.incorrect == before.correct + before.incorrect + 1
      && (stats[i].0 == 0 ==> after.correct == before.correct + 1 && after.incorrect == before.incorrect)
      && (stats[i].0 != 0 ==> after.correct == before.correct && after.incorrect == before.incorrect + 1)
      && after.totalEdits == before.totalEdits + stats[i].0
      && after.totalLength == before.totalLength + stats[i].1
  {
    assert stats[..i + 1][..i] == stats[..i];
  }

  /** `main` for one TSV file given as its lines. */
  method EvaluateFile(lines: seq<string>) returns (r: Result<Report, EvalError>)
    ensures r == FileReport(lines)
  {
    var parsed := TsvReader(lines);
    if parsed.Failure? {
      return Failure(MalformedLine);
    }
    var c := Tally(Scores(parsed.value));
    assert c == Counted(Scores(parsed.value));
    r := Rates(c);
  }

  /** `correct` counts exactly the examples whose hypothesis equals the gold. */
  lemma {:induction false} CorrectCountsExactMatches(pairs: seq<Pair>)
    ensures CountExact(Scores(pairs)) == ExactMatches(pairs)
  {
    if pairs != [] {
      var init := pairs[..|pairs| - 1];
      CorrectCountsExactMatches(init);
      assert Scores(pairs)[..|pairs| - 1] == Scores(init);
      ScoresAt(pairs, |pairs| - 1);
    }
  }

  /** `total_length` is the number of gold labels. */
  lemma {:induction false} LengthCountsGoldLabels(pairs: seq<Pair>)
    ensures SumLengths(Scores(pairs)) == GoldLabels(pairs)
  {
    if pairs != [] {
      var init := pairs[..|pairs| - 1];
      LengthCountsGoldLabels(init);
      assert Scores(pairs)[..|pairs| - 1] == Scores(init);
      ScoresAt(pairs, |pairs| - 1);
    }
  }

  lemma {:induction false} GoldLabelsZero(pairs: seq<Pair>)
    ensures GoldLabels(pairs) == 0 <==> forall k :: 0 <= k < |pairs| ==> pairs[k].0 == []
  {
    if pairs != [] {
      var init := pairs[..|pairs| - 1];
      GoldLabelsZero(init);
      assert forall k :: 0 <= k < |init| ==> init[k] == pairs[k];
    }
  }

  lemma {:induction false} ExactMatchesAll(pairs: seq<Pair>)
    ensures ExactMatches(pairs) == |pairs| <==> forall k :: 0 <= k < |pairs| ==> pairs[k].0 == pairs[k].1
  {
    if pairs != [] {
      var init := pairs[..|pairs| - 1];
      ExactMatchesAll(init);
      assert forall k :: 0 <= k < |init| ==> init[k] == pairs[k];
    }
  }

  /** A file fails as malformed exactly when one of its lines has no tab. */
  lemma FileReportMalformed(lines: seq<string>)
    ensures FileReport(lines) == Failure(MalformedLine) <==> exists k :: 0 <= k < |lines| && '\t' !in lines[k]
  {
  }

  /** Once every line parses, an empty file fails the WER division and a
      file with no gold labels the LER division, and nothing else fails. */
  lemma FileReportDivisions(lines: seq<string>)
    requires TsvReader(lines).Success?
    ensures var pairs := TsvReader(lines).value;
      && (FileReport(lines) == Failure(WerDivisionByZero) <==> lines == [])
      && (FileReport(lines) == Failure(LerDivisionByZero) <==>
            lines != [] && forall k :: 0 <= k < |pairs| ==> pairs[k].0 == [])
      && (FileReport(lines).Success? <==> lines != [] && GoldLabels(pairs) != 0)
  {
    var pairs := TsvReader(lines).value;
    var stats := Scores(pairs);
    FileReportCases(lines);
    CountedErrors(stats);
    LengthCountsGoldLabels(pairs);
    GoldLabelsZero(pairs);
  }

  /** Which division fails, in terms of the scores. */
  lemma CountedErrors(stats: seq<Stat>)
    ensures Rates(Counted(stats)) == Failure(WerDivisionByZero) <==> |stats| == 0
    ensures Rates(Counted(stats)) == Failure(LerDivisionByZero) <==> |stats| > 0 && SumLengths(stats) == 0
    ensures Rates(Counted(stats)).Success? <==> |stats| > 0 && SumLengths(stats) > 0
  {
  }

  /** The reported figures in terms of the scores. */
  lemma CountedFormulas(stats: seq<Stat>)
    requires |stats| > 0 && SumLengths(stats) > 0
    ensures Rates(Counted(stats)).Success?
    ensures Rates(Counted(stats)).value.wer
              == Percent(|stats| - CountExact(stats), |stats|)
    ensures Rates(Counted(stats)).value.ler
              == Percent(SumEdits(stats), SumLengths(stats))
  {
  }

  /** A report exists exactly for a non-empty file with some gold label. */
  lemma ReportDenominators(pairs: seq<Pair>)
    ensures Rates(Counted(Scores(pairs))).Success? <==> |pairs| > 0 && GoldLabels(pairs) > 0
  {
    var stats := Scores(pairs);
    CountedErrors(stats);
    LengthCountsGoldLabels(pairs);
  }

  /** WER is the percentage of examples whose hypothesis differs from the
      gold; LER is edits per hundred gold labels. */
  lemma ReportFormulas(pairs: seq<Pair>)
    requires |pairs| > 0 && GoldLabels(pairs) > 0
    ensures Rates(Counted(Scores(pairs))).Success?
    ensures Rates(Counted(Scores(pairs))).value.wer
              == Percent(|pairs| - ExactMatches(pairs), |pairs|)
    ensures Rates(Counted(Scores(pairs))).value.ler
              == Percent(SumEdits(Scores(pairs)), GoldLabels(pairs))
  {
    var stats := Scores(pairs);
    CorrectCountsExactMatches(pairs);
    LengthCountsGoldLabels(pairs);
    CountedFormulas(stats);
  }

  /** WER is 0 exactly when every hypothesis is right. */
  lemma WerZeroIffAllCorrect(pairs: seq<Pair>)
    requires |pairs| > 0 && GoldLabels(pairs) > 0
    ensures Rates(Counted(Scores(pairs))).Success?
    ensures Rates(Counted(Scores(pairs))).value.wer == 0.0 <==>
              forall k :: 0 <= k < |pairs| ==> pairs[k].0 == pairs[k].1
  {
    ReportFormulas(pairs);
    ExactMatchesAll(pairs);
  }

  /** No edits are made in total exactly when every hypothesis is right. */
  lemma {:induction false} NoEditsIffAllCorrect(pairs: seq<Pair>)
    ensures SumEdits(Scores(pairs)) == 0 <==> forall k :: 0 <= k < |pairs| ==> pairs[k].0 == pairs[k].1
  {
    if pairs != [] {
      var init := pairs[..|pairs| - 1];
      NoEditsIffAllCorrect(init);
      assert Scores(pairs)[..|pairs| - 1] == Scores(init);
      ScoresAt(pairs, |pairs| - 1);
      assert forall k :: 0 <= k < |init| ==> init[k] == pairs[k];
    }
  }

  /** LER is 0 exactly when every hypothesis is right, so exactly when WER is. */
  lemma LerZeroIffAllCorrect(pairs: seq<Pair>)
    requires |pairs| > 0 && GoldLabels(pairs) > 0
    ensures Rates(Counted(Scores(pairs))).Success?
    ensures Rates(Counted(Scores(pairs))).value.ler == 0.0 <==>
              forall k :: 0 <= k < |pairs| ==> pairs[k].0 == pairs[k].1
  {
    ReportFormulas(pairs);
    NoEditsIffAllCorrect(pairs);
  }
}
