/** Per-pair WER and CER metrics, with the blank-reference special cases.
    Rates are exact ratios. */
module Metrics {
  import opened Text
  import opened Aligner

  datatype MetricType = Wer | Cer

  /** The per-pair dictionary: `wer`/`cer`, `word_accuracy`/`character_accuracy`,
      the four counts and `word_count`/`character_count`. */
  datatype PairMetrics = PairMetrics(
    rate: real,
    accuracy: real,
    deletions: nat,
    insertions: nat,
    substitutions: nat,
    correct: nat,
    unitCount: nat)

  function ErrorCount(m: PairMetrics): nat {
    m.substitutions + m.deletions + m.insertions
  }

  /** `h / count if count > 0 else 0.0`. */
  function Accuracy(hits: nat, count: nat): real {
    if count > 0 then hits as real / count as real else 0.0
  }

  const BothBlank := PairMetrics(0.0, 1.0, 0, 0, 0, 0, 0)

  /** A blank reference against a non-blank hypothesis: every unit an insertion. */
  function AllInserted(insertions: nat): PairMetrics {
    PairMetrics(1.0, 0.0, 0, insertions, 0, 0, 0)
  }

  /** The metrics of a pair with a non-empty reference unit sequence `a`, from the
      alignment of `a` against `b`: the rate is (S + D + I) / (H + S + D) and the
      accuracy is hits over `count`. */
  function UnitMetrics<T(==)>(a: seq<T>, b: seq<T>, count: nat): PairMetrics
    requires |a| > 0
  {
    var ops := Trace(a, b);
    AlignmentCounts(a, b);
    PairMetrics(
      Errors(ops) as real / (Hits(ops) + Substitutions(ops) + Deletions(ops)) as real,
      Accuracy(Hits(ops), count),
      Deletions(ops), Insertions(ops), Substitutions(ops), Hits(ops), count)
  }

  lemma AlignmentCounts<T>(a: seq<T>, b: seq<T>)
    ensures Hits(Trace(a, b)) + Substitutions(Trace(a, b)) + Deletions(Trace(a, b)) == |a|
    ensures Hits(Trace(a, b)) + Substitutions(Trace(a, b)) + Insertions(Trace(a, b)) == |b|
  {
    TraceCorrect(a, b);
    CountIdentities(Trace(a, b));
  }

  /** `calculate_wer_metrics`: words are the units. */
  function WerMetrics(reference: string, hypothesis: string): PairMetrics {
    if Strip(reference) == [] then
      if Strip(hypothesis) == [] then BothBlank else AllInserted(|Words(hypothesis)|)
    else
      NonBlankUnits(reference);
      UnitMetrics(Words(reference), Words(hypothesis), |Words(reference)|)
  }

  /** `calculate_cer_metrics`: the code points of the stripped texts are the
      units, while the count is the length of the unstripped reference. */
  function CerMetrics(reference: string, hypothesis: string): PairMetrics {
    if Strip(reference) == [] then
      if Strip(hypothesis) == [] then BothBlank else AllInserted(|hypothesis|)
    else
      NonBlankUnits(reference);
      UnitMetrics(Strip(reference), Strip(hypothesis), |reference|)
  }

  function PairMetricsOf(t: MetricType, reference: string, hypothesis: string): PairMetrics {
    if t == Wer then WerMetrics(reference, hypothesis) else CerMetrics(reference, hypothesis)
  }

  lemma NonBlankUnits(s: string)
    requires Strip(s) != []
    ensures |Words(s)| > 0 && |Strip(s)| > 0 && |s| > 0
  {
    StripEmptyIffBlank(s);
    WordsEmptyIffBlank(s);
  }

  /** The operations `get_alignment` reports, word- or character-level. */
  datatype Alignment =
    | WordAlignment(wordOps: seq<EditOp<string>>)
    | CharAlignment(charOps: seq<EditOp<char>>)

  function AlignmentOf(t: MetricType, reference: string, hypothesis: string): Alignment {
    if t == Wer then WordAlignment(Trace(Words(reference), Words(hypothesis)))
    else CharAlignment(Trace(Strip(reference), Strip(hypothesis)))
  }

  // ---------------------------------------------------------------------
  // The per-pair operations

  /** Aligns `a` against `b` and tallies the operations. */
  method AlignAndTally<T(==)>(a: seq<T>, b: seq<T>, count: nat) returns (m: PairMetrics)
    requires |a| > 0
    ensures m == UnitMetrics(a, b, count)
  {
    var ops := Align(a, b);
    AlignmentCounts(a, b);
    var h, s, d, i := CountOps(ops);
    var accuracy := if count > 0 then h as real / count as real else 0.0;
    m := PairMetrics((s + d + i) as real / (h + s + d) as real, accuracy, d, i, s, h, count);
  }

  /** The tally of one alignment's operations by kind. */
  method CountOps<T>(ops: seq<EditOp<T>>) returns (h: nat, s: nat, d: nat, i: nat)
    ensures h == Hits(ops) && s == Substitutions(ops) && d == Deletions(ops) && i == Insertions(ops)
  {
    h, s, d, i := 0, 0, 0, 0;
    var k := 0;
    while k < |ops|
      invariant 0 <= k <= |ops|
      invariant h == Hits(ops[..k]) && s == Substitutions(ops[..k])
      invariant d == Deletions(ops[..k]) && i == Insertions(ops[..k])
    {
      assert ops[..k + 1][..k] == ops[..k];
      match ops[k] {
        case Hit(_) => h := h + 1;
        case Substitution(_, _) => s := s + 1;
        case Deletion(_) => d := d + 1;
        case Insertion(_) => i := i + 1;
      }
      k := k + 1;
    }
    assert ops[..k] == ops;
  }

  method CalculateWerMetrics(reference: string, hypothesis: string) returns (m: PairMetrics)
    ensures m == WerMetrics(reference, hypothesis)
  {
    if Strip(reference) == [] {
      if Strip(hypothesis) == [] {
        m := BothBlank;
      } else {
        m := AllInserted(|Words(hypothesis)|);
      }
    } else {
      var refWords := Words(reference);
      NonBlankUnits(reference);
      m := AlignAndTally(refWords, Words(hypothesis), |refWords|);
    }
  }

  method CalculateCerMetrics(reference: string, hypothesis: string) returns (m: PairMetrics)
    ensures m == CerMetrics(reference, hypothesis)
  {
    if Strip(reference) == [] {
      if Strip(hypothesis) == [] {
        m := BothBlank;
      } else {
        m := AllInserted(|hypothesis|);
      }
    } else {
      NonBlankUnits(reference);
      m := AlignAndTally(Strip(reference), Strip(hypothesis), |reference|);
    }
  }

  method GetAlignment(reference: string, hypothesis: string, t: MetricType) returns (al: Alignment)
    ensures al == AlignmentOf(t, reference, hypothesis)
  {
    if t == Wer {
      var ops := Align(Words(reference), Words(hypothesis));
      al := WordAlignment(ops);
    } else {
      var ops := Align(Strip(reference), Strip(hypothesis));
      al := CharAlignment(ops);
    }
  }

  // ---------------------------------------------------------------------
  // Properties of the per-pair metrics

  /** The alignment-based metrics: the reference units are all hit, substituted or
      deleted; the hypothesis units are hit, substituted or inserted; the errors are
      the minimum edit distance; and the rate is the errors per reference unit. */
  lemma UnitMetricsFacts<T>(a: seq<T>, b: seq<T>, count: nat)
    requires |a| > 0
    ensures var m := UnitMetrics(a, b, count);
      && m.correct + m.substitutions + m.deletions == |a|
      && m.correct + m.substitutions + m.insertions == |b|
      && ErrorCount(m) == Dist(a, b)
      && (forall ops :: IsAlignment(ops, a, b) ==> ErrorCount(m) <= Aligner.Errors(ops))
      && m.rate == ErrorCount(m) as real / |a| as real
      && m.accuracy == Accuracy(m.correct, count)
      && m.unitCount == count
  {
    AlignmentCounts(a, b);
    TraceCorrect(a, b);
    forall ops | IsAlignment(ops, a, b) ensures Dist(a, b) <= Aligner.Errors(ops) {
      DistMinimal(ops, a, b);
    }
  }

  /** Both sides blank: rate 0, accuracy 1, every count 0. */
  lemma BothBlankMetrics(t: MetricType, reference: string, hypothesis: string)
    requires IsBlank(reference) && IsBlank(hypothesis)
    ensures PairMetricsOf(t, reference, hypothesis) == PairMetrics(0.0, 1.0, 0, 0, 0, 0, 0)
  {
    StripEmptyIffBlank(reference);
    StripEmptyIffBlank(hypothesis);
  }

  /** Blank reference, non-blank hypothesis: rate 1, accuracy 0, count 0, and every
      unit an insertion — one per word for WER, one per code point (spaces
      included) for CER. */
  lemma BlankReferenceMetrics(t: MetricType, reference: string, hypothesis: string)
    requires IsBlank(reference) && !IsBlank(hypothesis)
    ensures var m := PairMetricsOf(t, reference, hypothesis);
      && m.rate == 1.0 && m.accuracy == 0.0
      && m.deletions == 0 && m.substitutions == 0 && m.correct == 0 && m.unitCount == 0
      && m.insertions == (if t == Wer then |Words(hypothesis)| else |hypothesis|)
      && m.insertions > 0
  {
    StripEmptyIffBlank(reference);
    StripEmptyIffBlank(hypothesis);
    WordsEmptyIffBlank(hypothesis);
  }

  /** A non-blank WER pair: `word_count` is the number of reference words, the
      counts reconstruct both word sequences, the errors are the minimum word edit
      distance, and rate and accuracy are errors and hits per reference word. */
  lemma WerCounts(reference: string, hypothesis: string)
    requires !IsBlank(reference)
    ensures var m := WerMetrics(reference, hypothesis);
      var r, h := Words(reference), Words(hypothesis);
      && m.unitCount == |r| > 0
      && m.correct + m.substitutions + m.deletions == m.unitCount
      && m.correct + m.substitutions + m.insertions == |h|
      && ErrorCount(m) == Dist(r, h)
      && m.rate == ErrorCount(m) as real / m.unitCount as real
      && m.accuracy == m.correct as real / m.unitCount as real
  {
    StripEmptyIffBlank(reference);
    NonBlankUnits(reference);
    var r, h := Words(reference), Words(hypothesis);
    assert WerMetrics(reference, hypothesis) == UnitMetrics(r, h, |r|);
    UnitMetricsFacts(r, h, |r|);
  }

  /** A non-blank CER pair: `character_count` is the length of the unstripped
      reference, the counts reconstruct the stripped texts, and the errors are their
      minimum edit distance, per stripped reference character. */
  lemma CerCounts(reference: string, hypothesis: string)
    requires !IsBlank(reference)
    ensures var m := CerMetrics(reference, hypothesis);
      var r, h := Strip(reference), Strip(hypothesis);
      && m.unitCount == |reference| > 0
      && m.correct + m.substitutions + m.deletions == |r|
      && m.correct + m.substitutions + m.insertions == |h|
      && ErrorCount(m) == Dist(r, h)
      && m.rate == ErrorCount(m) as real / |r| as real
      && m.accuracy == m.correct as real / |reference| as real
  {
    StripEmptyIffBlank(reference);
    NonBlankUnits(reference);
    var r, h := Strip(reference), Strip(hypothesis);
    assert CerMetrics(reference, hypothesis) == UnitMetrics(r, h, |reference|);
    UnitMetricsFacts(r, h, |reference|);
  }

  /** Identical non-blank texts score perfectly by words. */
  lemma WerIdentical(s: string)
    requires !IsBlank(s)
    ensures var m := WerMetrics(s, s);
      m.rate == 0.0 && m.accuracy == 1.0 && m.correct == m.unitCount == |Words(s)| && ErrorCount(m) == 0
  {
    WerCounts(s, s);
    DistZeroIffEqual(Words(s), Words(s));
    PerfectScore(WerMetrics(s, s));
  }

  /** Identical non-blank texts without outer whitespace score perfectly by characters. */
  lemma CerIdentical(s: string)
    requires !IsBlank(s) && Strip(s) == s
    ensures var m := CerMetrics(s, s);
      m.rate == 0.0 && m.accuracy == 1.0 && m.correct == m.unitCount == |s| && ErrorCount(m) == 0
  {
    CerCounts(s, s);
    DistZeroIffEqual(s, s);
    PerfectScore(CerMetrics(s, s));
  }

  /** A non-blank text against itself has no character errors, but its accuracy
      is the stripped length over the unstripped length, which is 1 exactly when
      the text has no outer whitespace. */
  lemma CerSelf(s: string)
    requires !IsBlank(s)
    ensures var m := CerMetrics(s, s);
      && m.rate == 0.0 && ErrorCount(m) == 0
      && m.correct == |Strip(s)| && m.unitCount == |s|
      && m.accuracy == |Strip(s)| as real / |s| as real
      && (m.accuracy == 1.0 <==> Strip(s) == s)
  {
    CerCounts(s, s);
    DistZeroIffEqual(Strip(s), Strip(s));
    StripLength(s);
    RatioIsOne(|Strip(s)|, |s|);
  }

  lemma RatioIsOne(x: nat, n: nat)
    requires n > 0
    ensures x as real / n as real == 1.0 <==> x == n
  {
    if x as real / n as real == 1.0 {
      assert x as real == n as real;
    }
  }

  /** Word error rate plus word accuracy is at least 1 for a non-blank reference,
      since every reference word that is not a hit is an error; accuracy is a
      fraction. */
  lemma WerRatePlusAccuracy(reference: string, hypothesis: string)
    requires !IsBlank(reference)
    ensures var m := WerMetrics(reference, hypothesis);
      m.rate + m.accuracy >= 1.0 && 0.0 <= m.accuracy <= 1.0
  {
    WerCounts(reference, hypothesis);
    ScoreSum(WerMetrics(reference, hypothesis));
  }

  /** A record whose rate and accuracy are errors and hits per unit, with no
      errors, has rate 0 and accuracy 1. */
  lemma PerfectScore(m: PairMetrics)
    requires m.unitCount == m.correct + m.substitutions + m.deletions > 0
    requires m.rate == ErrorCount(m) as real / m.unitCount as real
    requires m.accuracy == m.correct as real / m.unitCount as real
    requires ErrorCount(m) == 0
    ensures m.rate == 0.0 && m.accuracy == 1.0 && m.correct == m.unitCount
  {
    assert m.substitutions == 0 && m.deletions == 0;
    var n := m.unitCount as real;
    assert m.correct as real == n;
    assert m.accuracy == n / n == 1.0;
  }

  lemma ScoreSum(m: PairMetrics)
    requires m.unitCount == m.correct + m.substitutions + m.deletions > 0
    requires m.rate == ErrorCount(m) as real / m.unitCount as real
    requires m.accuracy == m.correct as real / m.unitCount as real
    ensures m.rate + m.accuracy >= 1.0 && 0.0 <= m.accuracy <= 1.0
  {
    var n := m.unitCount as real;
    var e, c := ErrorCount(m) as real, m.correct as real;
    assert m.rate + m.accuracy == (e + c) / n;
    assert e + c >= n;
    assert c <= n;
  }

  // ---------------------------------------------------------------------
  // The single-edit cases of the unit tests

  /** With exactly one error the unit counts decide its kind. */
  lemma OneError(m: PairMetrics, n: nat, k: nat)
    requires m.correct + m.substitutions + m.deletions == n
    requires m.correct + m.substitutions + m.insertions == k
    requires ErrorCount(m) == 1
    ensures n == k ==> m.substitutions == 1 && m.deletions == 0 && m.insertions == 0
    ensures n == k + 1 ==> m.deletions == 1 && m.substitutions == 0 && m.insertions == 0
    ensures k == n + 1 ==> m.insertions == 1 && m.substitutions == 0 && m.deletions == 0
  {
  }

  lemma TwoWords(x: string, y: string)
    requires IsWord(x) && IsWord(y)
    ensures Words(x + " " + y) == [x, y]
  {
    assert JoinWords([x, y]) == x + " " + y;
    WordsOfJoin([x, y]);
  }

  lemma OneWord(x: string)
    requires IsWord(x)
    ensures Words(x) == [x]
  {
    assert JoinWords([x]) == x;
    WordsOfJoin([x]);
  }

  /** Two words against two with the second replaced ("hello world" against
      "hello universe"): one substitution, a rate of one half. */
  lemma WerOneSubstitution(x: string, y: string, z: string)
    requires IsWord(x) && IsWord(y) && IsWord(z) && y != z
    ensures var m := WerMetrics(x + " " + y, x + " " + z);
      m.substitutions == 1 && m.deletions == 0 && m.insertions == 0 && m.correct == 1
      && m.unitCount == 2 && m.rate == 0.5 && m.accuracy == 0.5
  {
    var r, h := x + " " + y, x + " " + z;
    TwoWords(x, y);
    TwoWords(x, z);
    WordsEmptyIffBlank(r);
    DistOneSubstitution(x, y, z);
    WerCounts(r, h);
    OneError(WerMetrics(r, h), 2, 2);
  }

  /** Two words against the first alone ("hello world" against "hello"): one
      deletion, a rate of one half. */
  lemma WerOneDeletion(x: string, y: string)
    requires IsWord(x) && IsWord(y)
    ensures var m := WerMetrics(x + " " + y, x);
      m.deletions == 1 && m.substitutions == 0 && m.insertions == 0 && m.correct == 1
      && m.unitCount == 2 && m.rate == 0.5
  {
    var r := x + " " + y;
    TwoWords(x, y);
    OneWord(x);
    WordsEmptyIffBlank(r);
    DistOneDeletion(x, y);
    WerCounts(r, x);
    OneError(WerMetrics(r, x), 2, 1);
  }

  /** One word against itself followed by another ("hello" against "hello
      world"): one insertion, a rate of 1 with accuracy 1. */
  lemma WerOneInsertion(x: string, y: string)
    requires IsWord(x) && IsWord(y)
    ensures var m := WerMetrics(x, x + " " + y);
      m.insertions == 1 && m.substitutions == 0 && m.deletions == 0 && m.correct == 1
      && m.unitCount == 1 && m.rate == 1.0 && m.accuracy == 1.0
  {
    var h := x + " " + y;
    OneWord(x);
    TwoWords(x, y);
    WordsEmptyIffBlank(x);
    DistOneInsertion(x, y);
    WerCounts(x, h);
    OneError(WerMetrics(x, h), 1, 2);
  }

  /** Texts without outer whitespace that differ in one character ("hello"
      against "hallo"): one substitution among the reference's characters. */
  lemma CerOneSubstitution(p: string, c: char, d: char, q: string)
    requires c != d
    requires Strip(p + [c] + q) == p + [c] + q && Strip(p + [d] + q) == p + [d] + q
    ensures var r := p + [c] + q;
      var m := CerMetrics(r, p + [d] + q);
      && m.substitutions == 1 && m.deletions == 0 && m.insertions == 0
      && m.correct == |r| - 1 && m.unitCount == |r|
      && m.rate == 1.0 / |r| as real
      && m.accuracy == (|r| - 1) as real / |r| as real
  {
    var r, h := p + [c] + q, p + [d] + q;
    StripEmptyIffBlank(r);
    DistOnePosition(p, c, d, q);
    CerCounts(r, h);
    OneError(CerMetrics(r, h), |r|, |h|);
  }
}
