/** Batch statistics over processed sheets: the summary, the five-bucket
    score histogram, the per-sheet details and the two pipeline-accuracy
    figures. The recogniser and the demo front end compute the same report
    except for the average confidence, whose denominator differs. */
module Report {
  import opened Common
  import opened Sheets

  // ---------------------------------------------------------------------------
  // Sums and means of exact reals

  function Sum(xs: seq<real>): real
    decreases |xs|
  {
    if |xs| == 0 then 0.0 else Sum(xs[..|xs| - 1]) + xs[|xs| - 1]
  }

  /** `a` is the average of `n` values whose sum is `total`: times `n` it
      gives the total back. */
  predicate Averages(a: real, total: real, n: nat)
  {
    a * n as real == total
  }

  lemma DivMul(x: real, n: real)
    requires n != 0.0
    ensures x / n * n == x
  {
  }

  /** The arithmetic mean of a non-empty sequence. */
  function Mean(xs: seq<real>): (m: real)
    requires |xs| > 0
    ensures Averages(m, Sum(xs), |xs|)
  {
    DivMul(Sum(xs), |xs| as real);
    Sum(xs) / |xs| as real
  }

  /** Values between lo and hi sum to between n*lo and n*hi. */
  lemma {:induction false} SumBounds(xs: seq<real>, lo: real, hi: real)
    requires forall i :: 0 <= i < |xs| ==> lo <= xs[i] <= hi
    ensures |xs| as real * lo <= Sum(xs) <= |xs| as real * hi
    decreases |xs|
  {
    if |xs| > 0 {
      var front := xs[..|xs| - 1];
      assert forall i :: 0 <= i < |front| ==> front[i] == xs[i];
      SumBounds(front, lo, hi);
      var m := |front| as real;
      assert |xs| as real * lo == m * lo + lo;
      assert |xs| as real * hi == m * hi + hi;
    }
  }

  /** The mean of values between lo and hi lies between lo and hi. */
  lemma MeanBounds(xs: seq<real>, lo: real, hi: real)
    requires |xs| > 0
    requires forall i :: 0 <= i < |xs| ==> lo <= xs[i] <= hi
    ensures lo <= Mean(xs) <= hi
  {
    SumBounds(xs, lo, hi);
    var n := |xs| as real;
    DivMul(Sum(xs), n);
  }

  // ---------------------------------------------------------------------------
  // Score histogram

  /** The five score ranges of the histogram. */
  datatype Bucket = From90To100 | From80To89 | From70To79 | From60To69 | From0To59

  /** Every range includes its lower bound; only the top one includes its
      upper bound. */
  predicate InBucket(b: Bucket, score: real)
  {
    match b
    case From90To100 => 90.0 <= score <= 100.0
    case From80To89 => 80.0 <= score < 90.0
    case From70To79 => 70.0 <= score < 80.0
    case From60To69 => 60.0 <= score < 70.0
    case From0To59 => 0.0 <= score < 60.0
  }

  /** No score falls in two buckets. */
  lemma BucketsDisjoint(b1: Bucket, b2: Bucket, score: real)
    requires InBucket(b1, score) && InBucket(b2, score)
    ensures b1 == b2
  {
  }

  /** Every score from 0 to 100 falls in some bucket. */
  lemma BucketsCoverRange(score: real)
    requires 0.0 <= score <= 100.0
    ensures exists b :: InBucket(b, score)
  {
    if score >= 90.0 {
      assert InBucket(From90To100, score);
    } else if score >= 80.0 {
      assert InBucket(From80To89, score);
    } else if score >= 70.0 {
      assert InBucket(From70To79, score);
    } else if score >= 60.0 {
      assert InBucket(From60To69, score);
    } else {
      assert InBucket(From0To59, score);
    }
  }

  /** The number of sheets whose score falls in `b`. */
  function BucketCount(results: seq<AnswerSheet>, b: Bucket): (n: nat)
    ensures n <= |results|
    decreases |results|
  {
    if |results| == 0 then 0
    else BucketCount(results[..|results| - 1], b) + if InBucket(b, results[|results| - 1].score) then 1 else 0
  }

  /** The histogram as the report shows it. */
  datatype Distribution = Distribution(from90: nat, from80: nat, from70: nat, from60: nat, below60: nat)

  function Total(d: Distribution): nat
  {
    d.from90 + d.from80 + d.from70 + d.from60 + d.below60
  }

  predicate ScoresInRange(results: seq<AnswerSheet>)
  {
    forall i :: 0 <= i < |results| ==> 0.0 <= results[i].score <= 100.0
  }

  /** The bucket counts never count a sheet twice, and count every sheet once
      when all scores lie in [0, 100]. */
  lemma {:induction false} BucketCountsAddUp(results: seq<AnswerSheet>)
    ensures var total := BucketCount(results, From90To100) + BucketCount(results, From80To89)
                         + BucketCount(results, From70To79) + BucketCount(results, From60To69)
                         + BucketCount(results, From0To59);
            && total <= |results|
            && (ScoresInRange(results) ==> total == |results|)
    decreases |results|
  {
    if |results| > 0 {
      var front := results[..|results| - 1];
      assert ScoresInRange(results) ==> ScoresInRange(front) by {
        assert forall i :: 0 <= i < |front| ==> front[i] == results[i];
      }
      BucketCountsAddUp(front);
      var s := results[|results| - 1].score;
      if 0.0 <= s <= 100.0 {
        BucketsCoverRange(s);
      }
    }
  }

  /** The five bucket counts of a batch. */
  function ScoreDistribution(results: seq<AnswerSheet>): (d: Distribution)
    ensures Total(d) <= |results|
    ensures ScoresInRange(results) ==> Total(d) == |results|
  {
    BucketCountsAddUp(results);
    Distribution(
      BucketCount(results, From90To100),
      BucketCount(results, From80To89),
      BucketCount(results, From70To79),
      BucketCount(results, From60To69),
      BucketCount(results, From0To59))
  }

  // ---------------------------------------------------------------------------
  // Error tallies

  /** The number of processing messages over all sheets. */
  function ErrorCount(results: seq<AnswerSheet>): nat
    decreases |results|
  {
    if |results| == 0 then 0 else ErrorCount(results[..|results| - 1]) + |results[|results| - 1].errors|
  }

  /** The number of sheets processed without any message. */
  function ErrorFreeCount(results: seq<AnswerSheet>): (n: nat)
    ensures n <= |results|
    decreases |results|
  {
    if |results| == 0 then 0
    else ErrorFreeCount(results[..|results| - 1]) + if results[|results| - 1].errors == [] then 1 else 0
  }

  /** Every failed sheet carries at least one message, so the messages are at
      least the failed sheets; they are exactly as many when no sheet carries
      more than one. The free count is full or zero exactly when all sheets
      succeeded or all failed. */
  lemma {:induction false} ErrorTallies(results: seq<AnswerSheet>)
    ensures |results| - ErrorFreeCount(results) <= ErrorCount(results)
    ensures (forall i :: 0 <= i < |results| ==> |results[i].errors| <= 1) ==>
              ErrorCount(results) == |results| - ErrorFreeCount(results)
    ensures ErrorFreeCount(results) == |results| <==> forall i :: 0 <= i < |results| ==> results[i].errors == []
    ensures ErrorFreeCount(results) == 0 <==> forall i :: 0 <= i < |results| ==> results[i].errors != []
    decreases |results|
  {
    if |results| > 0 {
      var front := results[..|results| - 1];
      ErrorTallies(front);
      assert forall i :: 0 <= i < |front| ==> front[i] == results[i];
    }
  }

  // ---------------------------------------------------------------------------
  // Confidence figures

  /** Every per-question confidence of every sheet, in order. */
  function AllConfidences(results: seq<AnswerSheet>): seq<real>
    decreases |results|
  {
    if |results| == 0 then [] else AllConfidences(results[..|results| - 1]) + results[|results| - 1].confidences
  }

  /** The threshold above which a confidence counts as a sure detection. */
  const HighConfidence: real := 0.7

  /** The number of confidences strictly above HighConfidence. */
  function HighConfidenceCount(cs: seq<real>): (n: nat)
    ensures n <= |cs|
    decreases |cs|
  {
    if |cs| == 0 then 0
    else HighConfidenceCount(cs[..|cs| - 1]) + if cs[|cs| - 1] > HighConfidence then 1 else 0
  }

  /** The percentage of all confidences above 0.7, or 0 when there are none. */
  function MarkDetectionAccuracy(results: seq<AnswerSheet>): (a: real)
    ensures 0.0 <= a <= 100.0
    ensures |AllConfidences(results)| == 0 ==> a == 0.0
    ensures var all := AllConfidences(results);
            |all| > 0 ==> IsPercentageOf(a, HighConfidenceCount(all), |all|)
  {
    var all := AllConfidences(results);
    if |all| == 0 then 0.0
    else
      Percentage(HighConfidenceCount(all), |all|)
  }

  /** All confidences are counted exactly when every one is above 0.7. */
  lemma {:induction false} HighConfidenceCountFull(cs: seq<real>)
    ensures HighConfidenceCount(cs) == |cs| <==> forall i :: 0 <= i < |cs| ==> cs[i] > HighConfidence
    decreases |cs|
  {
    if |cs| > 0 {
      var front := cs[..|cs| - 1];
      HighConfidenceCountFull(front);
      assert forall i :: 0 <= i < |front| ==> front[i] == cs[i];
    }
  }

  /** The accuracy is 100 exactly when every confidence is above 0.7. */
  lemma MarkDetectionAccuracyFull(results: seq<AnswerSheet>)
    requires |AllConfidences(results)| > 0
    ensures var all := AllConfidences(results);
            MarkDetectionAccuracy(results) == 100.0 <==> forall i :: 0 <= i < |all| ==> all[i] > HighConfidence
  {
    var all := AllConfidences(results);
    PercentageExtremes(HighConfidenceCount(all), |all|);
    HighConfidenceCountFull(all);
  }

  /** The percentage of sheets processed without messages, or 0 for no sheets. */
  function GridDetectionSuccess(results: seq<AnswerSheet>): (g: real)
    ensures 0.0 <= g <= 100.0
    ensures |results| == 0 ==> g == 0.0
    ensures |results| > 0 ==> IsPercentageOf(g, ErrorFreeCount(results), |results|)
  {
    if |results| > 0 then Percentage(ErrorFreeCount(results), |results|) else 0.0
  }

  /** On a non-empty batch the grid success rate is 100 exactly when every
      sheet succeeded and 0 exactly when every sheet failed. */
  lemma GridDetectionSuccessExtremes(results: seq<AnswerSheet>)
    requires |results| > 0
    ensures GridDetectionSuccess(results) == 100.0 <==> forall i :: 0 <= i < |results| ==> results[i].errors == []
    ensures GridDetectionSuccess(results) == 0.0 <==> forall i :: 0 <= i < |results| ==> results[i].errors != []
  {
    PercentageExtremes(ErrorFreeCount(results), |results|);
    ErrorTallies(results);
  }

  /** The mean confidence of each sheet that has confidences, in order. */
  function SheetMeans(results: seq<AnswerSheet>): (ms: seq<real>)
    ensures |ms| <= |results|
    decreases |results|
  {
    if |results| == 0 then []
    else
      var r := results[|results| - 1];
      SheetMeans(results[..|results| - 1]) + if |r.confidences| > 0 then [Mean(r.confidences)] else []
  }

  /** A sheet's mean confidence as the detail record shows it; 0 without
      confidences. */
  function SheetConfidence(r: AnswerSheet): (c: real)
    ensures |r.confidences| == 0 ==> c == 0.0
    ensures |r.confidences| > 0 ==> Averages(c, Sum(r.confidences), |r.confidences|)
  {
    if |r.confidences| > 0 then Mean(r.confidences) else 0.0
  }

  /** The recogniser's average confidence: the mean of the sheet means over
      the sheets that have confidences. None stands for the NaN numpy returns
      when no sheet has any. */
  function RecogniserAverageConfidence(results: seq<AnswerSheet>): (a: Option<real>)
    ensures a.None? <==> |SheetMeans(results)| == 0
    ensures a.Some? ==> Averages(a.value, Sum(SheetMeans(results)), |SheetMeans(results)|)
  {
    var ms := SheetMeans(results);
    if |ms| == 0 then None else Some(Mean(ms))
  }

  /** The demo's average confidence: the same sheet means summed, but divided
      by the number of all sheets. */
  function DemoAverageConfidence(results: seq<AnswerSheet>): (a: real)
    requires |results| > 0
    ensures Averages(a, Sum(SheetMeans(results)), |results|)
  {
    DivMul(Sum(SheetMeans(results)), |results| as real);
    Sum(SheetMeans(results)) / |results| as real
  }

  /** `a` over `n` items and `b` over `m` items stand for the same total. */
  predicate SameTotal(a: real, n: nat, b: real, m: nat)
  {
    a * n as real == b * m as real
  }

  /** The two averages agree up to the share of sheets that have confidences:
      demo * (all sheets) == recogniser * (sheets with confidences), and the
      demo figure is 0 where the recogniser's is NaN. */
  lemma AverageConfidencesRelated(results: seq<AnswerSheet>)
    requires |results| > 0
    ensures |SheetMeans(results)| == 0 ==>
              RecogniserAverageConfidence(results) == None && DemoAverageConfidence(results) == 0.0
    ensures |SheetMeans(results)| > 0 ==>
              SameTotal(DemoAverageConfidence(results), |results|,
                        RecogniserAverageConfidence(results).value, |SheetMeans(results)|)
  {
    var ms := SheetMeans(results);
    if |ms| > 0 {
      var demo := DemoAverageConfidence(results);
      var rec := RecogniserAverageConfidence(results);
      assert demo == Sum(ms) / |results| as real;
      assert rec.value == Sum(ms) / |ms| as real;
      SharedSum(Sum(ms), |results|, |ms|);
    } else {
      assert Sum(ms) == 0.0;
    }
  }

  /** Dividing one total by two counts gives averages with the same total. */
  lemma SharedSum(s: real, n: nat, m: nat)
    requires n > 0 && m > 0
    ensures SameTotal(s / n as real, n, s / m as real, m)
  {
    DivMul(s, n as real);
    DivMul(s, m as real);
  }

  /** When every sheet has confidences, the two averages coincide. */
  lemma {:induction false} EverySheetHasMean(results: seq<AnswerSheet>)
    requires forall i :: 0 <= i < |results| ==> |results[i].confidences| > 0
    ensures |SheetMeans(results)| == |results|
    decreases |results|
  {
    if |results| > 0 {
      var front := results[..|results| - 1];
      assert forall i :: 0 <= i < |front| ==> front[i] == results[i];
      EverySheetHasMean(front);
    }
  }

  /** Sheet means of confidences in [0, 1] lie in [0, 1]. */
  lemma {:induction false} SheetMeansInUnitRange(results: seq<AnswerSheet>)
    requires forall i :: 0 <= i < |results| ==> forall j :: 0 <= j < |results[i].confidences| ==>
               0.0 <= results[i].confidences[j] <= 1.0
    ensures forall k :: 0 <= k < |SheetMeans(results)| ==> 0.0 <= SheetMeans(results)[k] <= 1.0
    decreases |results|
  {
    if |results| > 0 {
      var front := results[..|results| - 1];
      assert forall i :: 0 <= i < |front| ==> front[i] == results[i];
      SheetMeansInUnitRange(front);
      var r := results[|results| - 1];
      if |r.confidences| > 0 {
        MeanBounds(r.confidences, 0.0, 1.0);
      }
    }
  }

  /** With confidences in [0, 1], both average confidences lie in [0, 1]. */
  lemma AverageConfidencesInUnitRange(results: seq<AnswerSheet>)
    requires |results| > 0
    requires forall i :: 0 <= i < |results| ==> forall j :: 0 <= j < |results[i].confidences| ==>
               0.0 <= results[i].confidences[j] <= 1.0
    ensures RecogniserAverageConfidence(results).Some? ==> 0.0 <= RecogniserAverageConfidence(results).value <= 1.0
    ensures 0.0 <= DemoAverageConfidence(results) <= 1.0
  {
    var ms := SheetMeans(results);
    SheetMeansInUnitRange(results);
    SumBounds(ms, 0.0, 1.0);
    if |ms| > 0 {
      MeanBounds(ms, 0.0, 1.0);
    }
    var n := |results| as real;
    var d := DemoAverageConfidence(results);
    DivMul(Sum(ms), n);
    if d > 1.0 {
      assert d * n > 1.0 * n;
    }
  }

  // ---------------------------------------------------------------------------
  // Summary and success rate

  /** (sheets - messages) / sheets as a percentage; it falls below 0 when the
      sheets carry more messages than there are sheets. */
  function SuccessRate(results: seq<AnswerSheet>): (s: real)
    requires |results| > 0
    ensures s <= 100.0
    ensures s >= 0.0 <==> ErrorCount(results) <= |results|
    ensures IsPercentageOf(s, |results| - ErrorCount(results), |results|)
  {
    Percentage(|results| - ErrorCount(results), |results|)
  }

  /** When no sheet carries more than one message (as the single-sheet
      processor guarantees), the success rate equals the grid success rate. */
  lemma SuccessRateIsGridSuccess(results: seq<AnswerSheet>)
    requires |results| > 0
    requires forall i :: 0 <= i < |results| ==> |results[i].errors| <= 1
    ensures SuccessRate(results) == GridDetectionSuccess(results)
  {
    ErrorTallies(results);
    var n := |results| as real;
    assert SuccessRate(results) * n == GridDetectionSuccess(results) * n;
  }

  /** The mean score over all sheets. */
  function AverageScore(results: seq<AnswerSheet>): (a: real)
    requires |results| > 0
    ensures Averages(a, Sum(Scores(results)), |results|)
  {
    Mean(Scores(results))
  }

  function Scores(results: seq<AnswerSheet>): (ss: seq<real>)
    ensures |ss| == |results|
    ensures forall i :: 0 <= i < |results| ==> ss[i] == results[i].score
  {
    seq(|results|, i requires 0 <= i < |results| => results[i].score)
  }

  /** With every score in [0, 100], so is the average. */
  lemma AverageScoreInRange(results: seq<AnswerSheet>)
    requires |results| > 0 && ScoresInRange(results)
    ensures 0.0 <= AverageScore(results) <= 100.0
  {
    MeanBounds(Scores(results), 0.0, 100.0);
  }

  // ---------------------------------------------------------------------------
  // The report

  datatype Summary = Summary(
    totalSheets: nat,
    averageScore: real,
    averageConfidence: Option<real>,
    processingErrors: nat,
    successRate: real)

  /** One sheet as the detailed results list it. */
  datatype Detail = Detail(
    studentId: string,
    score: real,
    correct: nat,
    incorrect: nat,
    blank: nat,
    confidence: real,
    errors: seq<string>)

  /** A batch report, or the error answer for an empty batch. */
  datatype BatchReport =
    | NoResults
    | BatchReport(
        summary: Summary,
        distribution: Distribution,
        details: seq<Detail>,
        markDetectionAccuracy: real,
        gridDetectionSuccessRate: real)

  function DetailOf(r: AnswerSheet): Detail
  {
    Detail(r.studentId, r.score, r.correct, r.incorrect, r.blank, SheetConfidence(r), r.errors)
  }

  function Details(results: seq<AnswerSheet>): (ds: seq<Detail>)
    ensures |ds| == |results|
    ensures forall i :: 0 <= i < |results| ==> ds[i] == DetailOf(results[i])
  {
    seq(|results|, i requires 0 <= i < |results| => DetailOf(results[i]))
  }

  /** What both report generators promise of a non-empty batch. */
  predicate ReportConsistent(results: seq<AnswerSheet>, rep: BatchReport)
  {
    && rep.BatchReport?
    && rep.summary.totalSheets == |results|
    && rep.summary.processingErrors == ErrorCount(results)
    && Averages(rep.summary.averageScore, Sum(Scores(results)), |results|)
    && IsPercentageOf(rep.summary.successRate, |results| - ErrorCount(results), |results|)
    && rep.summary.successRate <= 100.0
    && |rep.details| == |results|
    && (forall i :: 0 <= i < |results| ==> rep.details[i] == DetailOf(results[i]))
    && rep.distribution == ScoreDistribution(results)
    && Total(rep.distribution) <= |results|
    && (ScoresInRange(results) ==> Total(rep.distribution) == |results|)
    && 0.0 <= rep.markDetectionAccuracy <= 100.0
    && (|AllConfidences(results)| == 0 ==> rep.markDetectionAccuracy == 0.0)
    && (|AllConfidences(results)| > 0 ==>
          IsPercentageOf(rep.markDetectionAccuracy, HighConfidenceCount(AllConfidences(results)),
                         |AllConfidences(results)|))
    && 0.0 <= rep.gridDetectionSuccessRate <= 100.0
    && IsPercentageOf(rep.gridDetectionSuccessRate, ErrorFreeCount(results), |results|)
  }

  /** The recogniser's generate_report (without the file output). */
  function RecogniserGenerateReport(results: seq<AnswerSheet>): (rep: BatchReport)
    ensures |results| == 0 <==> rep.NoResults?
    ensures |results| > 0 ==> ReportConsistent(results, rep)
    ensures |results| > 0 ==> rep.summary.averageConfidence == RecogniserAverageConfidence(results)
  {
    if |results| == 0 then NoResults
    else
      BatchReport(
        Summary(|results|, AverageScore(results), RecogniserAverageConfidence(results),
                ErrorCount(results), SuccessRate(results)),
        ScoreDistribution(results),
        Details(results),
        MarkDetectionAccuracy(results),
        GridDetectionSuccess(results))
  }

  /** The demo's generate_report (without the file output). */
  function DemoGenerateReport(results: seq<AnswerSheet>): (rep: BatchReport)
    ensures |results| == 0 <==> rep.NoResults?
    ensures |results| > 0 ==> ReportConsistent(results, rep)
    ensures |results| > 0 ==> rep.summary.averageConfidence == Some(DemoAverageConfidence(results))
  {
    if |results| == 0 then NoResults
    else
      BatchReport(
        Summary(|results|, AverageScore(results), Some(DemoAverageConfidence(results)),
                ErrorCount(results), SuccessRate(results)),
        ScoreDistribution(results),
        Details(results),
        MarkDetectionAccuracy(results),
        GridDetectionSuccess(results))
  }

  /** The two reports differ in the average confidence only. */
  lemma ReportsDifferOnlyInAverageConfidence(results: seq<AnswerSheet>)
    requires |results| > 0
    ensures var rec := RecogniserGenerateReport(results);
            var demo := DemoGenerateReport(results);
            rec.(summary := rec.summary.(averageConfidence := demo.summary.averageConfidence)) == demo
  {
  }

  /** When every sheet has confidences the two reports are identical. */
  lemma ReportsAgreeWhenEverySheetHasConfidences(results: seq<AnswerSheet>)
    requires |results| > 0
    requires forall i :: 0 <= i < |results| ==> |results[i].confidences| > 0
    ensures RecogniserGenerateReport(results) == DemoGenerateReport(results)
  {
    EverySheetHasMean(results);
    AverageConfidencesRelated(results);
    var n := |results| as real;
    var rec := RecogniserAverageConfidence(results).value;
    var demo := DemoAverageConfidence(results);
    assert demo * n == rec * n;
  }
}
