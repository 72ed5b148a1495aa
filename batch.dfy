/** Corpus-level metrics: the per-pair counts of a batch summed into totals,
    with one alignment record per pair and the corpus rate as a ratio of sums. */
module Batch {
  import opened Results
  import opened Text
  import opened Aligner
  import opened Metrics

  /** `metric_type`: "wer" selects words, every other value characters. */
  function MetricOf(name: string): MetricType {
    if name == "wer" then Wer else Cer
  }

  /** The dictionary appended to `alignments` for one pair. */
  datatype AlignmentRecord = AlignmentRecord(
    reference: string,
    hypothesis: string,
    alignment: Alignment,
    metrics: PairMetrics)

  /** The aggregated dictionary, with `total_sentences`. */
  datatype AggregateMetrics = AggregateMetrics(
    rate: real,
    accuracy: real,
    deletions: nat,
    insertions: nat,
    substitutions: nat,
    correct: nat,
    unitCount: nat,
    totalSentences: nat)

  /** The five running totals. */
  datatype Totals = Totals(correct: nat, deletions: nat, insertions: nat, substitutions: nat, count: nat)

  const NoTotals := Totals(0, 0, 0, 0, 0)

  function Add(x: Totals, y: Totals): Totals {
    Totals(x.correct + y.correct, x.deletions + y.deletions, x.insertions + y.insertions,
           x.substitutions + y.substitutions, x.count + y.count)
  }

  function TotalsOf(m: PairMetrics): Totals {
    Totals(m.correct, m.deletions, m.insertions, m.substitutions, m.unitCount)
  }

  /** The totals of a sequence of per-pair metrics. */
  function Sum(ms: seq<PairMetrics>): Totals {
    if |ms| == 0 then NoTotals else Add(Sum(ms[..|ms| - 1]), TotalsOf(ms[|ms| - 1]))
  }

  function RecordOf(t: MetricType, reference: string, hypothesis: string): AlignmentRecord {
    AlignmentRecord(reference, hypothesis, AlignmentOf(t, reference, hypothesis),
                    PairMetricsOf(t, reference, hypothesis))
  }

  function RecordsOf(t: MetricType, refs: seq<string>, hyps: seq<string>): (rs: seq<AlignmentRecord>)
    requires |refs| == |hyps|
  {
    seq(|refs|, k requires 0 <= k < |refs| => RecordOf(t, refs[k], hyps[k]))
  }

  function MetricsOf(rs: seq<AlignmentRecord>): seq<PairMetrics> {
    seq(|rs|, k requires 0 <= k < |rs| => rs[k].metrics)
  }

  function TotalErrors(c: Totals): nat {
    c.substitutions + c.deletions + c.insertions
  }

  /** The aggregate rule: with a zero summed count the rate is 1 if anything was
      inserted and 0 otherwise; else errors and hits per unit. */
  function Aggregate(c: Totals, sentences: nat): AggregateMetrics {
    var rate, accuracy :=
      if c.count == 0 then (if TotalErrors(c) > 0 then 1.0 else 0.0)
      else TotalErrors(c) as real / c.count as real,
      if c.count == 0 then (if TotalErrors(c) > 0 then 0.0 else 1.0)
      else c.correct as real / c.count as real;
    AggregateMetrics(rate, accuracy, c.deletions, c.insertions, c.substitutions, c.correct, c.count, sentences)
  }

  /** `calculate_metrics_batch`. */
  function CalculateBatch(t: MetricType, refs: seq<string>, hyps: seq<string>)
    : Result<(AggregateMetrics, seq<AlignmentRecord>)>
  {
    if |refs| != |hyps| then Failure("Reference and hypothesis lists must have the same length")
    else
      var rs := RecordsOf(t, refs, hyps);
      Success((Aggregate(Sum(MetricsOf(rs)), |refs|), rs))
  }

  // ---------------------------------------------------------------------
  // The loop

  method CalculateMetricsBatch(refs: seq<string>, hyps: seq<string>, metricType: string)
    returns (result: Result<(AggregateMetrics, seq<AlignmentRecord>)>)
    ensures result == CalculateBatch(MetricOf(metricType), refs, hyps)
  {
    if |refs| != |hyps| {
      return Failure("Reference and hypothesis lists must have the same length");
    }
    var t := MetricOf(metricType);
    var alignments, totals := AccumulatePairs(refs, hyps, t);
    var aggregated := AggregateTotals(totals, |refs|);
    result := Success((aggregated, alignments));
  }

  /** The rate and accuracy computed from the totals, with the two guards for an
      empty reference side. */
  method AggregateTotals(totals: Totals, sentences: nat) returns (aggregated: AggregateMetrics)
    ensures aggregated == Aggregate(totals, sentences)
  {
    var errors := totals.substitutions + totals.deletions + totals.insertions;
    var rate, accuracy;
    if totals.count == 0 {
      if errors > 0 {
        rate, accuracy := 1.0, 0.0;
      } else {
        rate, accuracy := 0.0, 1.0;
      }
    } else {
      rate, accuracy := errors as real / totals.count as real, totals.correct as real / totals.count as real;
    }
    aggregated := AggregateMetrics(rate, accuracy, totals.deletions, totals.insertions, totals.substitutions,
                                   totals.correct, totals.count, sentences);
  }

  /** The loop over the pairs: running totals and the list of records. */
  method AccumulatePairs(refs: seq<string>, hyps: seq<string>, t: MetricType)
    returns (alignments: seq<AlignmentRecord>, totals: Totals)
    requires |refs| == |hyps|
    ensures alignments == RecordsOf(t, refs, hyps)
    ensures totals == Sum(MetricsOf(alignments))
  {
    alignments := [];
    var totalCorrect: nat, totalDeletions: nat, totalInsertions: nat, totalSubstitutions: nat, totalCount: nat
      := 0, 0, 0, 0, 0;
    var k := 0;
    while k < |refs|
      invariant k <= |refs|
      invariant alignments == RecordsOf(t, refs[..k], hyps[..k])
      invariant Totals(totalCorrect, totalDeletions, totalInsertions, totalSubstitutions, totalCount)
                == RecordTotals(alignments)
    {
      var record := PairRecord(refs[k], hyps[k], t);
      totalCorrect, totalDeletions, totalInsertions, totalSubstitutions, totalCount :=
        Tally(totalCorrect, totalDeletions, totalInsertions, totalSubstitutions, totalCount, record.metrics);
      AccumulateStep(t, refs, hyps, k, alignments, record);
      alignments := alignments + [record];
      k := k + 1;
    }
    assert refs[..k] == refs && hyps[..k] == hyps;
    RecordTotalsSum(alignments);
    totals := Totals(totalCorrect, totalDeletions, totalInsertions, totalSubstitutions, totalCount);
  }

  /** Adds one pair's counts to the five running totals. */
  method Tally(correct: nat, deletions: nat, insertions: nat, substitutions: nat, count: nat, metrics: PairMetrics)
    returns (correct': nat, deletions': nat, insertions': nat, substitutions': nat, count': nat)
    ensures Totals(correct', deletions', insertions', substitutions', count')
            == Add(Totals(correct, deletions, insertions, substitutions, count), TotalsOf(metrics))
  {
    correct' := correct + metrics.correct;
    deletions' := deletions + metrics.deletions;
    insertions' := insertions + metrics.insertions;
    substitutions' := substitutions + metrics.substitutions;
    count' := count + metrics.unitCount;
  }

  /** The running totals over the records so far. */
  function RecordTotals(rs: seq<AlignmentRecord>): Totals {
    if |rs| == 0 then NoTotals else Add(RecordTotals(rs[..|rs| - 1]), TotalsOf(rs[|rs| - 1].metrics))
  }

  lemma {:induction false} RecordTotalsSum(rs: seq<AlignmentRecord>)
    ensures RecordTotals(rs) == Sum(MetricsOf(rs))
  {
    if |rs| > 0 {
      RecordTotalsSum(rs[..|rs| - 1]);
      assert MetricsOf(rs)[..|rs| - 1] == MetricsOf(rs[..|rs| - 1]);
    }
  }

  /** The record of one pair: its metrics, then its alignment. */
  method PairRecord(reference: string, hypothesis: string, t: MetricType) returns (record: AlignmentRecord)
    ensures record == RecordOf(t, reference, hypothesis)
  {
    var metrics := CalculatePairMetrics(reference, hypothesis, t);
    var alignment := GetAlignment(reference, hypothesis, t);
    record := AlignmentRecord(reference, hypothesis, alignment, metrics);
  }

  method CalculatePairMetrics(reference: string, hypothesis: string, t: MetricType) returns (m: PairMetrics)
    ensures m == PairMetricsOf(t, reference, hypothesis)
  {
    if t == Wer {
      m := CalculateWerMetrics(reference, hypothesis);
    } else {
      m := CalculateCerMetrics(reference, hypothesis);
    }
  }

  /** One pass of the loop extends the records by the pair's record and the
      totals by its metrics. */
  lemma AccumulateStep(t: MetricType, refs: seq<string>, hyps: seq<string>, k: nat,
                       rs: seq<AlignmentRecord>, r: AlignmentRecord)
    requires |refs| == |hyps| && k < |refs|
    requires rs == RecordsOf(t, refs[..k], hyps[..k]) && r == RecordOf(t, refs[k], hyps[k])
    ensures rs + [r] == RecordsOf(t, refs[..k + 1], hyps[..k + 1])
    ensures RecordTotals(rs + [r]) == Add(RecordTotals(rs), TotalsOf(r.metrics))
  {
    RecordsStep(t, refs, hyps, k);
    assert (rs + [r])[..|rs|] == rs;
  }

  lemma RecordsStep(t: MetricType, refs: seq<string>, hyps: seq<string>, k: nat)
    requires |refs| == |hyps| && k < |refs|
    ensures RecordsOf(t, refs[..k + 1], hyps[..k + 1])
            == RecordsOf(t, refs[..k], hyps[..k]) + [RecordOf(t, refs[k], hyps[k])]
  {
  }

  // ---------------------------------------------------------------------
  // Properties of a batch

  /** The call fails exactly when the lists differ in length. */
  lemma BatchFailsIffLengthsDiffer(t: MetricType, refs: seq<string>, hyps: seq<string>)
    ensures CalculateBatch(t, refs, hyps).Failure? <==> |refs| != |hyps|
    ensures CalculateBatch(t, refs, hyps).Failure? ==>
      CalculateBatch(t, refs, hyps).error == "Reference and hypothesis lists must have the same length"
  {
  }

  /** One record per pair, in input order, holding that pair's texts, its
      alignment and its metrics; `total_sentences` is the number of pairs. */
  lemma BatchRecords(t: MetricType, refs: seq<string>, hyps: seq<string>)
    requires |refs| == |hyps|
    ensures var (agg, rs) := CalculateBatch(t, refs, hyps).value;
      && |rs| == |refs| && agg.totalSentences == |refs|
      && forall k :: 0 <= k < |rs| ==>
           && rs[k].reference == refs[k] && rs[k].hypothesis == hyps[k]
           && rs[k].metrics == PairMetricsOf(t, refs[k], hyps[k])
           && rs[k].alignment == AlignmentOf(t, refs[k], hyps[k])
  {
  }

  /** Empty lists: no records, no sentences, rate 0 and accuracy 1. */
  lemma EmptyBatch(t: MetricType)
    ensures CalculateBatch(t, [], []) == Success((AggregateMetrics(0.0, 1.0, 0, 0, 0, 0, 0, 0), []))
  {
  }

  /** Summing is additive over concatenation. */
  lemma {:induction false} SumAppend(xs: seq<PairMetrics>, ys: seq<PairMetrics>)
    ensures Sum(xs + ys) == Add(Sum(xs), Sum(ys))
    decreases |ys|
  {
    if |ys| == 0 {
      assert xs + ys == xs;
    } else {
      var ys', y := ys[..|ys| - 1], ys[|ys| - 1];
      assert xs + ys == (xs + ys') + [y];
      SumAppend(xs, ys');
      SumLast(xs + ys', y);
      SumLast(ys', y);
      assert ys' + [y] == ys;
    }
  }

  lemma SumLast(ms: seq<PairMetrics>, m: PairMetrics)
    ensures Sum(ms + [m]) == Add(Sum(ms), TotalsOf(m))
  {
    assert (ms + [m])[..|ms|] == ms;
  }

  /** The totals of a batch of two concatenated batches are the sums of their
      totals: each aggregate count is the sum of the per-pair counts. */
  lemma BatchSplit(t: MetricType, refs1: seq<string>, hyps1: seq<string>, refs2: seq<string>, hyps2: seq<string>)
    requires |refs1| == |hyps1| && |refs2| == |hyps2|
    ensures var whole := CalculateBatch(t, refs1 + refs2, hyps1 + hyps2).value;
      var one := CalculateBatch(t, refs1, hyps1).value;
      var two := CalculateBatch(t, refs2, hyps2).value;
      && whole.1 == one.1 + two.1
      && whole.0.correct == one.0.correct + two.0.correct
      && whole.0.deletions == one.0.deletions + two.0.deletions
      && whole.0.insertions == one.0.insertions + two.0.insertions
      && whole.0.substitutions == one.0.substitutions + two.0.substitutions
      && whole.0.unitCount == one.0.unitCount + two.0.unitCount
      && whole.0.totalSentences == one.0.totalSentences + two.0.totalSentences
  {
    var rs1, rs2 := RecordsOf(t, refs1, hyps1), RecordsOf(t, refs2, hyps2);
    RecordsAppend(t, refs1, hyps1, refs2, hyps2);
    MetricsAppend(rs1, rs2);
    SumAppend(MetricsOf(rs1), MetricsOf(rs2));
  }

  lemma RecordsAppend(t: MetricType, refs1: seq<string>, hyps1: seq<string>, refs2: seq<string>, hyps2: seq<string>)
    requires |refs1| == |hyps1| && |refs2| == |hyps2|
    ensures RecordsOf(t, refs1 + refs2, hyps1 + hyps2) == RecordsOf(t, refs1, hyps1) + RecordsOf(t, refs2, hyps2)
  {
  }

  lemma MetricsAppend(rs1: seq<AlignmentRecord>, rs2: seq<AlignmentRecord>)
    ensures MetricsOf(rs1 + rs2) == MetricsOf(rs1) + MetricsOf(rs2)
  {
  }

  lemma SumSingle(m: PairMetrics)
    ensures Sum([m]) == TotalsOf(m)
  {
    assert [m][..0] == [];
  }

  lemma SumPair(m1: PairMetrics, m2: PairMetrics)
    ensures Sum([m1, m2]) == Add(TotalsOf(m1), TotalsOf(m2))
  {
    SumSingle(m1);
    SumLast([m1], m2);
    assert [m1] + [m2] == [m1, m2];
  }

  /** A batch of one pair reports that pair's counts. */
  lemma SingleBatch(t: MetricType, reference: string, hypothesis: string)
    ensures var m := PairMetricsOf(t, reference, hypothesis);
      var agg := CalculateBatch(t, [reference], [hypothesis]).value.0;
      && agg.correct == m.correct && agg.deletions == m.deletions && agg.insertions == m.insertions
      && agg.substitutions == m.substitutions && agg.unitCount == m.unitCount && agg.totalSentences == 1
  {
    var m := PairMetricsOf(t, reference, hypothesis);
    var rs := RecordsOf(t, [reference], [hypothesis]);
    assert MetricsOf(rs) == [m];
    SumSingle(m);
  }

  /** Hits, substitutions and deletions together cover the unit count exactly,
      or at most. */
  predicate CoversCount(c: Totals) {
    c.correct + c.substitutions + c.deletions == c.count
  }

  predicate WithinCount(c: Totals) {
    c.correct + c.substitutions + c.deletions <= c.count
  }

  lemma {:induction false} SumCovers(ms: seq<PairMetrics>)
    ensures (forall k :: 0 <= k < |ms| ==> CoversCount(TotalsOf(ms[k]))) ==> CoversCount(Sum(ms))
    ensures (forall k :: 0 <= k < |ms| ==> WithinCount(TotalsOf(ms[k]))) ==> WithinCount(Sum(ms))
  {
    if |ms| > 0 {
      var ms' := ms[..|ms| - 1];
      SumCovers(ms');
      assert forall k :: 0 <= k < |ms'| ==> ms'[k] == ms[k];
    }
  }

  /** Every word-level pair covers its count: blank references count 0 words and
      have no hits, substitutions or deletions. */
  lemma WerPairCovers(reference: string, hypothesis: string)
    ensures CoversCount(TotalsOf(WerMetrics(reference, hypothesis)))
  {
    if !IsBlank(reference) {
      WerCounts(reference, hypothesis);
    } else if IsBlank(hypothesis) {
      BothBlankMetrics(Wer, reference, hypothesis);
    } else {
      BlankReferenceMetrics(Wer, reference, hypothesis);
    }
  }

  /** A character-level pair can count fewer aligned characters than
      `character_count`, which includes the outer whitespace of the reference. */
  lemma CerPairWithin(reference: string, hypothesis: string)
    ensures WithinCount(TotalsOf(CerMetrics(reference, hypothesis)))
  {
    if !IsBlank(reference) {
      CerCounts(reference, hypothesis);
      StripLength(reference);
    } else if IsBlank(hypothesis) {
      BothBlankMetrics(Cer, reference, hypothesis);
    } else {
      BlankReferenceMetrics(Cer, reference, hypothesis);
    }
  }

  /** For a word-level batch with at least one reference word the corpus rate is
      total errors over total aligned reference words (H + S + D); for a
      character-level batch the denominator is at least that. */
  lemma CorpusDenominator(t: MetricType, refs: seq<string>, hyps: seq<string>)
    requires |refs| == |hyps|
    ensures var agg := CalculateBatch(t, refs, hyps).value.0;
      && (t == Wer ==> agg.correct + agg.substitutions + agg.deletions == agg.unitCount)
      && (t == Cer ==> agg.correct + agg.substitutions + agg.deletions <= agg.unitCount)
      && (agg.unitCount > 0 ==>
            agg.rate == (agg.substitutions + agg.deletions + agg.insertions) as real / agg.unitCount as real)
  {
    var c := Sum(MetricsOf(RecordsOf(t, refs, hyps)));
    var agg := CalculateBatch(t, refs, hyps).value.0;
    assert agg == Aggregate(c, |refs|) by {
      BatchAggregate(t, refs, hyps);
    }
    assert (t == Wer ==> CoversCount(c)) && (t == Cer ==> WithinCount(c)) by {
      BatchTotalsCover(t, refs, hyps);
    }
    AggregateCounts(c, |refs|);
    AggregateRate(c, |refs|);
  }

  lemma BatchAggregate(t: MetricType, refs: seq<string>, hyps: seq<string>)
    requires |refs| == |hyps|
    ensures CalculateBatch(t, refs, hyps).value.0 == Aggregate(Sum(MetricsOf(RecordsOf(t, refs, hyps))), |refs|)
  {
  }

  /** The aggregate carries the summed counts over unchanged. */
  lemma AggregateCounts(c: Totals, n: nat)
    ensures var agg := Aggregate(c, n);
      && agg.correct == c.correct && agg.substitutions == c.substitutions && agg.deletions == c.deletions
      && agg.insertions == c.insertions && agg.unitCount == c.count
  {
  }

  lemma BatchTotalsCover(t: MetricType, refs: seq<string>, hyps: seq<string>)
    requires |refs| == |hyps|
    ensures var c := Sum(MetricsOf(RecordsOf(t, refs, hyps)));
      (t == Wer ==> CoversCount(c)) && (t == Cer ==> WithinCount(c))
  {
    var ms := MetricsOf(RecordsOf(t, refs, hyps));
    if t == Wer {
      forall k | 0 <= k < |ms| ensures CoversCount(TotalsOf(ms[k])) {
        assert ms[k] == WerMetrics(refs[k], hyps[k]);
        WerPairCovers(refs[k], hyps[k]);
      }
    } else {
      forall k | 0 <= k < |ms| ensures WithinCount(TotalsOf(ms[k])) {
        assert ms[k] == CerMetrics(refs[k], hyps[k]);
        CerPairWithin(refs[k], hyps[k]);
      }
    }
    SumCovers(ms);
  }

  /** The corpus rule: with units, the rate is the errors over the units and
      the accuracy the correct units over the units; with none, a batch with
      errors scores rate 1 and accuracy 0 and one without scores rate 0 and
      accuracy 1. Neither is ever negative. */
  lemma AggregateRate(c: Totals, n: nat)
    ensures var agg := Aggregate(c, n);
      && (agg.unitCount > 0 ==>
            && agg.rate == (agg.substitutions + agg.deletions + agg.insertions) as real / agg.unitCount as real
            && agg.accuracy == agg.correct as real / agg.unitCount as real)
      && (agg.unitCount == 0 && agg.substitutions + agg.deletions + agg.insertions > 0 ==>
            agg.rate == 1.0 && agg.accuracy == 0.0)
      && (agg.unitCount == 0 && agg.substitutions + agg.deletions + agg.insertions == 0 ==>
            agg.rate == 0.0 && agg.accuracy == 1.0)
      && agg.rate >= 0.0 && agg.accuracy >= 0.0 && agg.totalSentences == n
  {
  }

  /** The corpus rate is a ratio of sums, not the mean of the per-pair rates:
      one error in a one-word pair and none in a three-word pair give 1/4, while
      the per-pair rates 1 and 0 average 1/2. */
  lemma NotAnAverage(m1: PairMetrics, m2: PairMetrics)
    requires m1 == PairMetrics(1.0, 0.0, 0, 0, 1, 0, 1)
    requires m2 == PairMetrics(0.0, 1.0, 0, 0, 0, 3, 3)
    ensures Aggregate(Sum([m1, m2]), 2).rate == 0.25
    ensures (m1.rate + m2.rate) / 2.0 == 0.5
  {
    ExampleTotals(m1, m2);
    AggregateQuarter(Sum([m1, m2]));
  }

  lemma ExampleTotals(m1: PairMetrics, m2: PairMetrics)
    requires m1 == PairMetrics(1.0, 0.0, 0, 0, 1, 0, 1)
    requires m2 == PairMetrics(0.0, 1.0, 0, 0, 0, 3, 3)
    ensures Sum([m1, m2]) == Totals(3, 0, 0, 1, 4)
  {
    SumPair(m1, m2);
  }

  lemma AggregateQuarter(c: Totals)
    requires c == Totals(3, 0, 0, 1, 4)
    ensures Aggregate(c, 2).rate == 0.25
  {
  }
}
