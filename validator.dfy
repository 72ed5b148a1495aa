/** Input validation: the line-by-line checks of a TRN file, the pairing of a
    hypothesis file with its reference file, and the consistency checks over an
    adjustments object. */
module Validator {
  import opened Results
  import opened Text
  import opened Ids
  import opened Trn
  import Adjustments

  /** Why a TRN file is rejected. */
  datatype TrnError =
    | InvalidSclite(lineNumber: nat, line: string)
    | InvalidNative(lineNumber: nat, line: string)
    | EmptyId(lineNumber: nat, line: string)
    | DuplicateId(id: string, lineNumber: nat)
    | MissingIds(ids: seq<string>)
    | UnexpectedIds(ids: seq<string>)

  datatype Outcome<T> = Valid(value: T) | Invalid(error: TrnError)

  /** The text of the error raised (the file name is not part of it here). */
  function Message(e: TrnError): string {
    match e
    case InvalidSclite(n, line) =>
      "Invalid sclite format at line " + Decimal(n) + ": Expected format 'sentence (ID)'. Got: " + line
    case InvalidNative(n, line) =>
      "Invalid native format at line " + Decimal(n) + ": Expected format 'ID: sentence'. Missing ':' in: " + line
    case EmptyId(n, line) => "Empty ID at line " + Decimal(n) + ": " + line
    case DuplicateId(id, n) => "Duplicate ID '" + id + "' found at line " + Decimal(n) + ". Each ID must be unique."
    case MissingIds(ids) => "File is missing " + Decimal(|ids|) + " expected ID(s): " + FirstTen(ids)
    case UnexpectedIds(ids) => "File has " + Decimal(|ids|) + " unexpected ID(s): " + FirstTen(ids)
  }

  /** At most ten IDs, then "..." when there are more. */
  function FirstTen(ids: seq<string>): string {
    if |ids| > 10 then ListText(ids[..10]) + "..." else ListText(ids)
  }

  // ---------------------------------------------------------------------
  // validate_trn_format

  /** One line (numbered from 1) against the records read so far. */
  function Step(rs: seq<Record>, line: string, number: nat, sclite: bool): Outcome<seq<Record>> {
    StepOn(rs, ParseLine(line, sclite), line, number)
  }

  /** The same step once the line has been read as `l`. */
  function StepOn(rs: seq<Record>, l: Line, line: string, number: nat): Outcome<seq<Record>> {
    match l
    case Blank => Valid(rs)
    case NotSclite => Invalid(InvalidSclite(number, line))
    case MissingColon => Invalid(InvalidNative(number, line))
    case Entry(id, text) =>
      if |id| == 0 then Invalid(EmptyId(number, line))
      else if id in IdsOf(rs) then Invalid(DuplicateId(id, number))
      else Valid(rs + [(id, text)])
  }

  /** The records of the lines, or the error of the first line that fails. */
  function ParseLines(lines: seq<string>, sclite: bool): Outcome<seq<Record>>
    decreases |lines|
  {
    if |lines| == 0 then Valid([])
    else match ParseLines(lines[..|lines| - 1], sclite)
      case Invalid(e) => Invalid(e)
      case Valid(rs) => Step(rs, lines[|lines| - 1], |lines|, sclite)
  }

  /** Missing expected IDs are reported first, then unexpected ones. */
  ghost function CheckExpected(found: set<string>, expected: set<string>): Option<TrnError> {
    if expected - found != {} then Some(MissingIds(SortedOf(expected - found)))
    else if found - expected != {} then Some(UnexpectedIds(SortedOf(found - expected)))
    else None
  }

  ghost function TrnFormat(lines: seq<string>, sclite: bool, expected: Option<set<string>>)
    : Outcome<(seq<Record>, set<string>)>
  {
    match ParseLines(lines, sclite)
    case Invalid(e) => Invalid(e)
    case Valid(rs) =>
      if expected.Some? && CheckExpected(IdsOf(rs), expected.value).Some? then
        Invalid(CheckExpected(IdsOf(rs), expected.value).value)
      else Valid((rs, IdsOf(rs)))
  }

  /** `validate_trn_format` over the lines of the file: the records in file
      order and the set of IDs found. */
  method ValidateTrnFormat(lines: seq<string>, sclite: bool, expected: Option<set<string>>)
    returns (r: Outcome<(seq<Record>, set<string>)>)
    ensures r == TrnFormat(lines, sclite, expected)
  {
    var read, foundIds := ReadLines(lines, sclite);
    if read.Invalid? {
      return Invalid(read.error);
    }
    if expected.Some? {
      var missing := expected.value - foundIds;
      var extra := foundIds - expected.value;
      if missing != {} {
        var ids := SortIds(missing);
        return Invalid(MissingIds(ids));
      }
      if extra != {} {
        var ids := SortIds(extra);
        return Invalid(UnexpectedIds(ids));
      }
    }
    r := Valid((read.value, foundIds));
  }

  /** The line loop of `validate_trn_format`, keeping the set of IDs found. */
  method ReadLines(lines: seq<string>, sclite: bool) returns (r: Outcome<seq<Record>>, foundIds: set<string>)
    ensures r == ParseLines(lines, sclite)
    ensures r.Valid? ==> foundIds == IdsOf(r.value)
  {
    var results: seq<Record> := [];
    foundIds := {};
    var n := 0;
    while n < |lines|
      invariant 0 <= n <= |lines|
      invariant ParseLines(lines[..n], sclite) == Valid(results)
      invariant foundIds == IdsOf(results)
    {
      LinesPrefix(lines, n, sclite, results);
      var step;
      step, foundIds := ReadLine(results, foundIds, lines[n], n + 1, sclite);
      if step.Invalid? {
        ErrorPersists(lines, n + 1, sclite);
        return Invalid(step.error), foundIds;
      }
      results := step.value;
      n := n + 1;
    }
    assert lines[..n] == lines;
    r := Valid(results);
  }

  lemma LinesPrefix(lines: seq<string>, n: nat, sclite: bool, rs: seq<Record>)
    requires n < |lines| && ParseLines(lines[..n], sclite) == Valid(rs)
    ensures ParseLines(lines[..n + 1], sclite) == Step(rs, lines[n], n + 1, sclite)
  {
    assert lines[..n + 1][..n] == lines[..n];
  }

  /** One line of the loop, keeping the set of IDs found in step with the records. */
  method ReadLine(rs: seq<Record>, found: set<string>, line: string, number: nat, sclite: bool)
    returns (step: Outcome<seq<Record>>, found': set<string>)
    requires found == IdsOf(rs)
    ensures step == Step(rs, line, number, sclite)
    ensures step.Valid? ==> found' == IdsOf(step.value)
  {
    step := Step(rs, line, number, sclite);
    found' := found;
    var l := ParseLine(line, sclite);
    if step.Valid? && l.Entry? {
      IdsOfAppend(rs, (l.id, l.text));
      found' := found + {l.id};
    }
  }

  lemma IdsOfAppend(rs: seq<Record>, r: Record)
    ensures IdsOf(rs + [r]) == IdsOf(rs) + {r.0}
  {
    var all := rs + [r];
    forall x | x in IdsOf(rs) ensures x in IdsOf(all) {
      var k :| 0 <= k < |rs| && rs[k].0 == x;
      assert all[k] == rs[k];
    }
    assert all[|rs|] == r;
  }

  /** The first error decides: reading more lines does not change it. */
  lemma {:induction false} ErrorPersists(lines: seq<string>, m: nat, sclite: bool)
    requires m <= |lines| && ParseLines(lines[..m], sclite).Invalid?
    ensures ParseLines(lines, sclite) == ParseLines(lines[..m], sclite)
    decreases |lines|
  {
    if m < |lines| {
      var front := lines[..|lines| - 1];
      assert front[..m] == lines[..m];
      ErrorPersists(front, m, sclite);
    } else {
      assert lines[..m] == lines;
    }
  }

  /** Every non-blank line is well formed with a non-empty ID, and no ID repeats. */
  predicate Acceptable(es: seq<Line>) {
    && (forall i :: 0 <= i < |es| ==> es[i].Entry? && |es[i].id| > 0)
    && (forall i, j :: 0 <= i < j < |es| ==> es[i].id != es[j].id)
  }

  /** A file is accepted exactly when its non-blank lines are acceptable, and
      then there is one record per non-blank line, in file order. */
  lemma {:induction false} ParseLinesIff(lines: seq<string>, sclite: bool)
    ensures ParseLines(lines, sclite).Valid? <==> Acceptable(Entries(lines, sclite))
    ensures ParseLines(lines, sclite).Valid? ==> Matches(ParseLines(lines, sclite).value, Entries(lines, sclite))
    decreases |lines|
  {
    if |lines| > 0 {
      var front := lines[..|lines| - 1];
      var line := lines[|lines| - 1];
      ParseLinesIff(front, sclite);
      var l := ParseLine(line, sclite);
      var ef := Entries(front, sclite);
      var tail := if l.Blank? then [] else [l];
      match ParseLines(front, sclite)
      case Invalid(_) =>
        AcceptablePrefix(ef, tail);
      case Valid(rs) =>
        StepAcceptable(ef, rs, line, |lines|, sclite);
    }
  }

  lemma AcceptablePrefix(ef: seq<Line>, tail: seq<Line>)
    requires !Acceptable(ef)
    ensures !Acceptable(ef + tail)
  {
    var es := ef + tail;
    assert forall i :: 0 <= i < |ef| ==> es[i] == ef[i];
  }

  lemma StepAcceptable(ef: seq<Line>, rs: seq<Record>, line: string, number: nat, sclite: bool)
    requires Acceptable(ef) && Matches(rs, ef)
    ensures var l := ParseLine(line, sclite);
      var es := ef + (if l.Blank? then [] else [l]);
      && (Step(rs, line, number, sclite).Valid? <==> Acceptable(es))
      && (Step(rs, line, number, sclite).Valid? ==> Matches(Step(rs, line, number, sclite).value, es))
  {
    var l := ParseLine(line, sclite);
    if l.Blank? {
      assert ef + [] == ef;
    } else {
      StepOnAcceptable(ef, rs, l, line, number);
    }
  }

  lemma StepOnAcceptable(ef: seq<Line>, rs: seq<Record>, l: Line, line: string, number: nat)
    requires Acceptable(ef) && Matches(rs, ef) && !l.Blank?
    ensures && (StepOn(rs, l, line, number).Valid? <==> Acceptable(ef + [l]))
            && (StepOn(rs, l, line, number).Valid? ==> Matches(StepOn(rs, l, line, number).value, ef + [l]))
  {
    var es := ef + [l];
    assert es[|ef|] == l;
    if l.Entry? && |l.id| > 0 {
      if l.id in IdsOf(rs) {
        var k :| 0 <= k < |rs| && rs[k].0 == l.id;
        assert es[k] == ef[k];
        assert es[k].id == es[|ef|].id;
      } else {
        var rs' := rs + [(l.id, l.text)];
        forall i | 0 <= i < |rs'| ensures es[i] == Entry(rs'[i].0, rs'[i].1) {
          if i < |rs| {
            assert rs'[i] == rs[i] && es[i] == ef[i];
          }
        }
        forall i, j | 0 <= i < j < |es| ensures es[i].id != es[j].id {
          if j < |ef| {
            assert es[i] == ef[i] && es[j] == ef[j];
          } else {
            assert rs[i].0 in IdsOf(rs);
            assert es[i] == ef[i];
          }
        }
        forall i | 0 <= i < |es| ensures es[i].Entry? && |es[i].id| > 0 {
          if i < |ef| {
            assert es[i] == ef[i];
          }
        }
      }
    }
  }

  /** An accepted file yields distinct non-empty IDs, and the ID set returned
      is the set of IDs of its records. */
  lemma AcceptedRecords(lines: seq<string>, sclite: bool, expected: Option<set<string>>)
    requires TrnFormat(lines, sclite, expected).Valid?
    ensures var (rs, ids) := TrnFormat(lines, sclite, expected).value;
      && DistinctIds(rs) && ids == IdsOf(rs)
      && (forall i :: 0 <= i < |rs| ==> |rs[i].0| > 0)
      && (expected.Some? ==> ids == expected.value)
  {
    ParseLinesIff(lines, sclite);
    var rs := ParseLines(lines, sclite).value;
    var es := Entries(lines, sclite);
    assert Matches(rs, es);
    forall i, j | 0 <= i < j < |rs| ensures rs[i].0 != rs[j].0 {
      assert es[i].id != es[j].id;
    }
    forall i | 0 <= i < |rs| ensures |rs[i].0| > 0 {
      assert es[i] == Entry(rs[i].0, rs[i].1);
    }
  }

  /** With expected IDs, a readable file is accepted exactly when its IDs are
      the expected ones; otherwise missing IDs are reported before extra ones. */
  lemma ExpectedIds(lines: seq<string>, sclite: bool, expected: set<string>)
    requires ParseLines(lines, sclite).Valid?
    ensures var found := IdsOf(ParseLines(lines, sclite).value);
      && (TrnFormat(lines, sclite, Some(expected)).Valid? <==> found == expected)
      && (expected - found != {} ==>
            TrnFormat(lines, sclite, Some(expected)).error.MissingIds?
            && Elements(TrnFormat(lines, sclite, Some(expected)).error.ids) == expected - found)
      && (expected - found == {} && found - expected != {} ==>
            TrnFormat(lines, sclite, Some(expected)).error.UnexpectedIds?
            && Elements(TrnFormat(lines, sclite, Some(expected)).error.ids) == found - expected)
  {
    var found := IdsOf(ParseLines(lines, sclite).value);
    if found != expected {
      assert expected - found != {} || found - expected != {};
    }
  }

  /** A blank line adds nothing. */
  lemma BlankLinesSkipped(lines: seq<string>, line: string, sclite: bool)
    requires IsBlank(line)
    ensures ParseLines(lines + [line], sclite) == ParseLines(lines, sclite)
  {
    var all := lines + [line];
    assert all[..|all| - 1] == lines;
  }

  /** A repeated ID fails at the line that repeats it. */
  lemma DuplicateFails(lines: seq<string>, line: string, sclite: bool)
    requires ParseLines(lines, sclite).Valid?
    requires ParseLine(line, sclite).Entry? && |ParseLine(line, sclite).id| > 0
    requires ParseLine(line, sclite).id in IdsOf(ParseLines(lines, sclite).value)
    ensures ParseLines(lines + [line], sclite) == Invalid(DuplicateId(ParseLine(line, sclite).id, |lines| + 1))
  {
    var all := lines + [line];
    assert all[..|all| - 1] == lines;
  }

  // ---------------------------------------------------------------------
  // validate_trn_pair

  ghost function TrnPair(hypLines: seq<string>, refLines: seq<string>, sclite: bool): Outcome<seq<Triple>> {
    match TrnFormat(refLines, sclite, None)
    case Invalid(e) => Invalid(e)
    case Valid((refs, refIds)) =>
      match TrnFormat(hypLines, sclite, Some(refIds))
      case Invalid(e) => Invalid(e)
      case Valid((hyps, _)) =>
        AcceptedRecords(refLines, sclite, None);
        AcceptedRecords(hypLines, sclite, Some(refIds));
        MapOfDomain(refs);
        MapOfDomain(hyps);
        Valid(Triples(SortedOf(refIds), MapOf(refs), MapOf(hyps)))
  }

  /** `(id, refDict[id], hypDict[id])` for each ID in order. */
  function Triples(ids: seq<string>, refDict: map<string, string>, hypDict: map<string, string>): seq<Triple>
    requires forall i :: 0 <= i < |ids| ==> ids[i] in refDict && ids[i] in hypDict
  {
    seq(|ids|, i requires 0 <= i < |ids| => (ids[i], refDict[ids[i]], hypDict[ids[i]]))
  }

  /** `validate_trn_pair`: the reference file is read first, then the hypothesis
      file against the reference IDs; the triples follow the sorted IDs. */
  method ValidateTrnPair(hypLines: seq<string>, refLines: seq<string>, sclite: bool)
    returns (r: Outcome<seq<Triple>>)
    ensures r == TrnPair(hypLines, refLines, sclite)
  {
    var refRead := ValidateTrnFormat(refLines, sclite, None);
    if refRead.Invalid? {
      return Invalid(refRead.error);
    }
    var (references, refIds) := refRead.value;
    var hypRead := ValidateTrnFormat(hypLines, sclite, Some(refIds));
    if hypRead.Invalid? {
      return Invalid(hypRead.error);
    }
    var hypotheses := hypRead.value.0;
    AcceptedRecords(refLines, sclite, None);
    AcceptedRecords(hypLines, sclite, Some(refIds));
    MapOfDomain(references);
    MapOfDomain(hypotheses);
    var refDict := MapOf(references);
    var hypDict := MapOf(hypotheses);
    var ids := SortIds(refIds);
    assert forall i :: 0 <= i < |ids| ==> ids[i] in Elements(ids);
    var results := BuildTriples(ids, refDict, hypDict);
    r := Valid(results);
  }

  /** The loop over the sorted IDs. */
  method BuildTriples(ids: seq<string>, refDict: map<string, string>, hypDict: map<string, string>)
    returns (results: seq<Triple>)
    requires forall i :: 0 <= i < |ids| ==> ids[i] in refDict && ids[i] in hypDict
    ensures results == Triples(ids, refDict, hypDict)
  {
    results := [];
    var i := 0;
    while i < |ids|
      invariant 0 <= i <= |ids|
      invariant |results| == i
      invariant forall k :: 0 <= k < i ==> results[k] == (ids[k], refDict[ids[k]], hypDict[ids[k]])
    {
      var id := ids[i];
      results := results + [(id, refDict[id], hypDict[id])];
      i := i + 1;
    }
  }

  /** The triples of an accepted pair are sorted by ID, cover exactly the
      reference IDs (which are the hypothesis IDs), and pair each ID's reference
      text with its hypothesis text. */
  lemma PairTriples(hypLines: seq<string>, refLines: seq<string>, sclite: bool)
    requires TrnPair(hypLines, refLines, sclite).Valid?
    ensures var ts := TrnPair(hypLines, refLines, sclite).value;
      var refs := ParseLines(refLines, sclite).value;
      var hyps := ParseLines(hypLines, sclite).value;
      && (forall i, j :: 0 <= i < j < |ts| ==> Less(ts[i].0, ts[j].0))
      && (set k | 0 <= k < |ts| :: ts[k].0) == IdsOf(refs) == IdsOf(hyps)
      && (forall k :: 0 <= k < |ts| ==> (ts[k].0, ts[k].1) in refs && (ts[k].0, ts[k].2) in hyps)
  {
    var refs := ParseLines(refLines, sclite).value;
    var refIds := IdsOf(refs);
    var hyps := ParseLines(hypLines, sclite).value;
    AcceptedRecords(refLines, sclite, None);
    AcceptedRecords(hypLines, sclite, Some(refIds));
    MapOfDomain(refs);
    MapOfDomain(hyps);
    TriplesFacts(SortedOf(refIds), refs, hyps);
  }

  lemma TriplesFacts(ids: seq<string>, refs: seq<Record>, hyps: seq<Record>)
    requires StrictlySorted(ids) && DistinctIds(refs) && DistinctIds(hyps)
    requires Elements(ids) == IdsOf(refs) == IdsOf(hyps)
    requires MapOf(refs).Keys == IdsOf(refs) && MapOf(hyps).Keys == IdsOf(hyps)
    ensures forall i :: 0 <= i < |ids| ==> ids[i] in MapOf(refs) && ids[i] in MapOf(hyps)
    ensures var ts := Triples(ids, MapOf(refs), MapOf(hyps));
      && (forall i, j :: 0 <= i < j < |ts| ==> Less(ts[i].0, ts[j].0))
      && (set k | 0 <= k < |ts| :: ts[k].0) == IdsOf(refs)
      && (forall k :: 0 <= k < |ts| ==> (ts[k].0, ts[k].1) in refs && (ts[k].0, ts[k].2) in hyps)
  {
    assert forall i :: 0 <= i < |ids| ==> ids[i] in Elements(ids);
    TriplesIds(ids, MapOf(refs), MapOf(hyps));
    TriplesTexts(ids, refs, hyps);
  }

  lemma TriplesIds(ids: seq<string>, refDict: map<string, string>, hypDict: map<string, string>)
    requires forall i :: 0 <= i < |ids| ==> ids[i] in refDict && ids[i] in hypDict
    ensures var ts := Triples(ids, refDict, hypDict);
      (set k | 0 <= k < |ts| :: ts[k].0) == Elements(ids)
  {
    var ts := Triples(ids, refDict, hypDict);
    forall x | x in Elements(ids) ensures x in (set k | 0 <= k < |ts| :: ts[k].0) {
      var k :| 0 <= k < |ids| && ids[k] == x;
      assert ts[k].0 == x;
    }
  }

  lemma TriplesTexts(ids: seq<string>, refs: seq<Record>, hyps: seq<Record>)
    requires DistinctIds(refs) && DistinctIds(hyps)
    requires forall i :: 0 <= i < |ids| ==> ids[i] in MapOf(refs) && ids[i] in MapOf(hyps)
    ensures var ts := Triples(ids, MapOf(refs), MapOf(hyps));
      forall k :: 0 <= k < |ts| ==> (ts[k].0, ts[k].1) in refs && (ts[k].0, ts[k].2) in hyps
  {
    var ts := Triples(ids, MapOf(refs), MapOf(hyps));
    forall k | 0 <= k < |ts| ensures (ts[k].0, ts[k].1) in refs && (ts[k].0, ts[k].2) in hyps {
      MapOfDistinct(refs, ts[k].0, ts[k].1);
      MapOfDistinct(hyps, ts[k].0, ts[k].2);
    }
  }

  // ---------------------------------------------------------------------
  // validate_adjustments_consistency

  /** Strings are compared lowercased unless the adjustments are case-sensitive. */
  function Norm(s: string, caseSensitive: bool): string {
    if caseSensitive then s else Lower(s)
  }

  function ReplacementKeys(adj: Adjustments.Adjustments): set<string> {
    set k | 0 <= k < |adj.replacements| :: Norm(adj.replacements[k].0, adj.caseSensitive)
  }

  function ReplacementValues(adj: Adjustments.Adjustments): set<string> {
    set k | 0 <= k < |adj.replacements| :: Norm(adj.replacements[k].1, adj.caseSensitive)
  }

  /** The canonical forms as this check sees them: the equivalence names. */
  function Canonicals(adj: Adjustments.Adjustments): set<string> {
    set k | 0 <= k < |adj.equivalences| :: Norm(adj.equivalences[k].0, adj.caseSensitive)
  }

  /** Every listed variant, the first one of each list included. */
  function Variants(adj: Adjustments.Adjustments): set<string> {
    VariantsOf(adj.equivalences, adj.caseSensitive)
  }

  function VariantsOf(eqs: seq<(string, seq<string>)>, caseSensitive: bool): set<string>
    decreases |eqs|
  {
    if |eqs| == 0 then {}
    else VariantsOf(eqs[..|eqs| - 1], caseSensitive) + NormSet(eqs[|eqs| - 1].1, caseSensitive)
  }

  function NormSet(xs: seq<string>, caseSensitive: bool): set<string> {
    set m | 0 <= m < |xs| :: Norm(xs[m], caseSensitive)
  }

  function CleanUpWords(adj: Adjustments.Adjustments): set<string> {
    set k | 0 <= k < |adj.cleanUp| :: Norm(adj.cleanUp[k], adj.caseSensitive)
  }

  /** The six overlaps, in the order they are checked. */
  function Overlaps(adj: Adjustments.Adjustments): seq<set<string>> {
    OverlapsWith(Variants(adj), adj)
  }

  function OverlapsWith(variants: set<string>, adj: Adjustments.Adjustments): seq<set<string>> {
    [ variants * Canonicals(adj),
      variants * ReplacementKeys(adj),
      Canonicals(adj) * ReplacementKeys(adj),
      variants * ReplacementValues(adj),
      CleanUpWords(adj) * (Canonicals(adj) + variants),
      CleanUpWords(adj) * (ReplacementKeys(adj) + ReplacementValues(adj)) ]
  }

  /** The report for the `n`-th overlap, listing its sorted strings. */
  function Report(n: nat, listing: string): string {
    if n == 0 then
      "Equivalence inconsistency: The following variants are also used as canonical forms: "
      + listing + ". A variant cannot be a canonical form."
    else if n == 1 then
      "Equivalence inconsistency: The following equivalence variants are also used as keys in reference_replacements: "
      + listing + ". This creates a conflict: should the variant be replaced or normalized?"
    else if n == 2 then
      "Equivalence inconsistency: The following canonical forms are also used as keys in reference_replacements: "
      + listing + ". This creates a conflict: should the canonical form be replaced or kept?"
    else if n == 3 then
      "Equivalence inconsistency: The following equivalence variants are also used as values in reference_replacements: "
      + listing + ". This may create unexpected behavior."
    else if n == 4 then
      "Clean_up inconsistency: The following words to remove are also defined in equivalences: "
      + listing + ". This creates a conflict: should the word be normalized or removed?"
    else
      "Clean_up inconsistency: The following words to remove are also used in reference_replacements: "
      + listing + ". This creates a conflict: should the word be replaced or removed?"
  }

  /** The reports for the non-empty overlaps, in order. */
  ghost function Reports(overlaps: seq<set<string>>): seq<string>
    decreases |overlaps|
  {
    if |overlaps| == 0 then []
    else Reports(overlaps[..|overlaps| - 1]) + ReportIf(overlaps[|overlaps| - 1], |overlaps| - 1)
  }

  /** The report for overlap number `n`, if it is non-empty. */
  ghost function ReportIf(overlap: set<string>, n: nat): seq<string> {
    if overlap == {} then [] else [Report(n, ListText(SortedOf(overlap)))]
  }

  const Header := "Adjustments file contains inconsistencies:"

  function Bullets(errors: seq<string>): string {
    if |errors| == 0 then "" else "\n  - " + errors[0] + Bullets(errors[1..])
  }

  ghost function Consistency(adj: Adjustments.Adjustments): Result<()> {
    var errors := Reports(Overlaps(adj));
    if |errors| == 0 then Success(()) else Failure(Header + Bullets(errors))
  }

  /** The loop gathering the normalised variants of every equivalence list. */
  method CollectVariants(eqs: seq<(string, seq<string>)>, caseSensitive: bool) returns (variants: set<string>)
    ensures variants == VariantsOf(eqs, caseSensitive)
  {
    variants := {};
    var k := 0;
    while k < |eqs|
      invariant 0 <= k <= |eqs|
      invariant variants == VariantsOf(eqs[..k], caseSensitive)
    {
      assert eqs[..k + 1][..k] == eqs[..k];
      variants := variants + NormSet(eqs[k].1, caseSensitive);
      k := k + 1;
    }
    assert eqs[..k] == eqs;
  }

  /** `validate_adjustments_consistency`. */
  method ValidateAdjustmentsConsistency(adj: Adjustments.Adjustments) returns (r: Result<()>)
    ensures r == Consistency(adj)
  {
    var variants := CollectVariants(adj.equivalences, adj.caseSensitive);
    var errors := CollectReports(OverlapsWith(variants, adj));
    if |errors| == 0 {
      r := Success(());
    } else {
      r := Failure(Header + Bullets(errors));
    }
  }

  /** The loop appending one report per non-empty overlap, in order. */
  method CollectReports(overlaps: seq<set<string>>) returns (errors: seq<string>)
    ensures errors == Reports(overlaps)
  {
    errors := [];
    var n := 0;
    while n < |overlaps|
      invariant 0 <= n <= |overlaps|
      invariant errors == Reports(overlaps[..n])
    {
      var found := Reported(overlaps[n], n);
      ReportsPrefix(overlaps, n);
      errors := errors + found;
      n := n + 1;
    }
    assert overlaps[..n] == overlaps;
  }

  lemma ReportsPrefix(overlaps: seq<set<string>>, n: nat)
    requires n < |overlaps|
    ensures Reports(overlaps[..n + 1]) == Reports(overlaps[..n]) + ReportIf(overlaps[n], n)
  {
    assert overlaps[..n + 1][..n] == overlaps[..n];
  }

  /** One overlap's check: nothing when it is empty, else its report. */
  method Reported(overlap: set<string>, n: nat) returns (found: seq<string>)
    ensures found == ReportIf(overlap, n)
  {
    found := [];
    if overlap != {} {
      var listing := SortIds(overlap);
      found := [Report(n, ListText(listing))];
    }
  }

  lemma {:induction false} ReportsEmpty(overlaps: seq<set<string>>)
    ensures |Reports(overlaps)| == 0 <==> forall i :: 0 <= i < |overlaps| ==> overlaps[i] == {}
    decreases |overlaps|
  {
    if |overlaps| > 0 {
      var n := |overlaps| - 1;
      var front := overlaps[..n];
      ReportsEmpty(front);
      assert |Reports(overlaps)| == |Reports(front)| + |ReportIf(overlaps[n], n)|;
      assert |ReportIf(overlaps[n], n)| == 0 <==> overlaps[n] == {};
      assert forall i :: 0 <= i < |front| ==> front[i] == overlaps[i];
    }
  }

  /** The adjustments are rejected exactly when one of the six overlaps is non-empty. */
  lemma ConsistencyIff(adj: Adjustments.Adjustments)
    ensures Consistency(adj).Success? <==>
      && Variants(adj) * Canonicals(adj) == {}
      && Variants(adj) * ReplacementKeys(adj) == {}
      && Canonicals(adj) * ReplacementKeys(adj) == {}
      && Variants(adj) * ReplacementValues(adj) == {}
      && CleanUpWords(adj) * (Canonicals(adj) + Variants(adj)) == {}
      && CleanUpWords(adj) * (ReplacementKeys(adj) + ReplacementValues(adj)) == {}
  {
    ConsistentWithoutOverlaps(adj);
    var o := Overlaps(adj);
    SixEmpty(o);
    assert o == OverlapsWith(Variants(adj), adj);
  }

  lemma SixEmpty(o: seq<set<string>>)
    requires |o| == 6
    ensures (forall i :: 0 <= i < 6 ==> o[i] == {}) <==>
      o[0] == {} && o[1] == {} && o[2] == {} && o[3] == {} && o[4] == {} && o[5] == {}
  {
  }

  lemma ConsistentWithoutOverlaps(adj: Adjustments.Adjustments)
    ensures |Overlaps(adj)| == 6
    ensures Consistency(adj).Success? <==> forall i :: 0 <= i < 6 ==> Overlaps(adj)[i] == {}
  {
    ReportsEmpty(Overlaps(adj));
  }

  /** Without case sensitivity, a clean-up word that differs from a
      replacement key only in case is still a conflict. */
  lemma CaseInsensitiveConflict(adj: Adjustments.Adjustments, w: nat, k: nat)
    requires !adj.caseSensitive && w < |adj.cleanUp| && k < |adj.replacements|
    requires Lower(adj.cleanUp[w]) == Lower(adj.replacements[k].0)
    ensures Consistency(adj).Failure?
  {
    ConsistencyIff(adj);
    var x := Norm(adj.cleanUp[w], adj.caseSensitive);
    assert x in CleanUpWords(adj);
    assert x == Norm(adj.replacements[k].0, adj.caseSensitive);
    assert x in ReplacementKeys(adj);
    assert x in CleanUpWords(adj) * (ReplacementKeys(adj) + ReplacementValues(adj));
  }
}
