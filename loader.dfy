/** Input loading: reading a TRN file's lines into (ID, text) records without
    the validator's ID checks, reading the rows of a compact CSV, checking the
    input options, and merging a hypothesis file with a reference file into
    (ID, reference, hypothesis) triples sorted by ID. */
module Loader {
  import opened Results
  import opened Text
  import opened Ids
  import opened Trn
  import Validator

  // ---------------------------------------------------------------------
  // parse_trn_file

  /** Every error of a line is wrapped with its number and the file's path. */
  function LineError(number: nat, path: string, reason: string): string {
    "Error parsing line " + Decimal(number) + " of " + path + ": " + reason
  }

  /** One line (numbered from 1), already read as `l`, after the records so far.
      Unlike the validator, an empty or repeated ID is kept. */
  function ReadStep(rs: seq<Record>, l: Line, line: string, number: nat, path: string): Result<seq<Record>> {
    match l
    case Blank => Success(rs)
    case NotSclite =>
      Failure(LineError(number, path, "Invalid sclite format at line " + Decimal(number) + ": " + Strip(line)))
    case MissingColon =>
      Failure(LineError(number, path, "Invalid native format at line " + Decimal(number) + ": missing ':' in " + Strip(line)))
    case Entry(id, text) => Success(rs + [(id, text)])
  }

  /** The records of the lines of the file at `path`, or the error of the first
      line that cannot be read. */
  function ReadTrn(lines: seq<string>, sclite: bool, path: string): Result<seq<Record>>
    decreases |lines|
  {
    if |lines| == 0 then Success([])
    else match ReadTrn(lines[..|lines| - 1], sclite, path)
      case Failure(e) => Failure(e)
      case Success(rs) => ReadStep(rs, ParseLine(lines[|lines| - 1], sclite), lines[|lines| - 1], |lines|, path)
  }

  /** `parse_trn_file` over the lines of the file. */
  method ParseTrnFile(lines: seq<string>, sclite: bool, path: string) returns (r: Result<seq<Record>>)
    ensures r == ReadTrn(lines, sclite, path)
  {
    var results: seq<Record> := [];
    var n := 0;
    while n < |lines|
      invariant 0 <= n <= |lines|
      invariant ReadTrn(lines[..n], sclite, path) == Success(results)
    {
      var line := lines[n];
      assert lines[..n + 1][..n] == lines[..n] && lines[..n + 1][n] == line;
      match ParseLine(line, sclite) {
        case Blank =>
        case Entry(id, text) =>
          results := results + [(id, text)];
        case NotSclite =>
          ReadErrorPersists(lines, n + 1, sclite, path);
          return Failure(LineError(n + 1, path, "Invalid sclite format at line " + Decimal(n + 1) + ": " + Strip(line)));
        case MissingColon =>
          ReadErrorPersists(lines, n + 1, sclite, path);
          return Failure(LineError(n + 1, path, "Invalid native format at line " + Decimal(n + 1) + ": missing ':' in " + Strip(line)));
      }
      n := n + 1;
    }
    assert lines[..n] == lines;
    r := Success(results);
  }

  /** The first error decides: later lines do not change it. */
  lemma {:induction false} ReadErrorPersists(lines: seq<string>, m: nat, sclite: bool, path: string)
    requires m <= |lines| && ReadTrn(lines[..m], sclite, path).Failure?
    ensures ReadTrn(lines, sclite, path) == ReadTrn(lines[..m], sclite, path)
    decreases |lines|
  {
    if m < |lines| {
      var front := lines[..|lines| - 1];
      assert front[..m] == lines[..m];
      ReadErrorPersists(front, m, sclite, path);
    } else {
      assert lines[..m] == lines;
    }
  }

  /** A file is read exactly when each of its non-blank lines is well formed,
      and then it yields one record per non-blank line, in file order, whatever
      the IDs are. */
  lemma {:induction false} ReadTrnIff(lines: seq<string>, sclite: bool, path: string)
    ensures ReadTrn(lines, sclite, path).Success? <==>
      forall i :: 0 <= i < |Entries(lines, sclite)| ==> Entries(lines, sclite)[i].Entry?
    ensures ReadTrn(lines, sclite, path).Success? ==>
      Matches(ReadTrn(lines, sclite, path).value, Entries(lines, sclite))
    decreases |lines|
  {
    if |lines| > 0 {
      var front := lines[..|lines| - 1];
      var line := lines[|lines| - 1];
      ReadTrnIff(front, sclite, path);
      var l := ParseLine(line, sclite);
      var ef := Entries(front, sclite);
      var es := Entries(lines, sclite);
      assert es == ef + (if l.Blank? then [] else [l]);
      assert forall i :: 0 <= i < |ef| ==> es[i] == ef[i];
      if !l.Blank? {
        assert es[|ef|] == l;
      }
      match ReadTrn(front, sclite, path)
      case Failure(_) =>
      case Success(rs) =>
        if l.Entry? {
          var rs' := rs + [(l.id, l.text)];
          forall i | 0 <= i < |rs'| ensures es[i] == Entry(rs'[i].0, rs'[i].1) {
            if i < |rs| {
              assert rs'[i] == rs[i];
            }
          }
        }
    }
  }

  /** Wherever the validator accepts a file, the loader reads the same records. */
  lemma {:induction false} ReadAgreesWithValidator(lines: seq<string>, sclite: bool, path: string)
    requires Validator.ParseLines(lines, sclite).Valid?
    ensures ReadTrn(lines, sclite, path) == Success(Validator.ParseLines(lines, sclite).value)
    decreases |lines|
  {
    if |lines| > 0 {
      var front := lines[..|lines| - 1];
      var line := lines[|lines| - 1];
      assert Validator.ParseLines(front, sclite).Valid?;
      ReadAgreesWithValidator(front, sclite, path);
      var rs := Validator.ParseLines(front, sclite).value;
      assert Validator.ParseLines(lines, sclite) == Validator.Step(rs, line, |lines|, sclite);
      assert ReadTrn(lines, sclite, path) == ReadStep(rs, ParseLine(line, sclite), line, |lines|, path);
    }
  }

  /** A line `: text` gives the empty ID: the loader keeps the record, where the
      validator rejects the line. */
  lemma EmptyIdKept(text: string, path: string)
    requires Strip(text) == text
    ensures ReadTrn([": " + text], false, path) == Success([("", text)])
    ensures Validator.ParseLines([": " + text], false).Invalid?
  {
    var lines := [": " + text];
    NativeEmptyId(text);
    assert lines[..0] == [] && lines[0] == ": " + text;
    assert ReadTrn(lines[..0], false, path) == Success([]);
    assert ReadTrn(lines, false, path) == ReadStep([], Entry("", text), ": " + text, 1, path);
    var none: seq<Record> := [];
    assert none + [("", text)] == [("", text)];
  }

  lemma NativeEmptyId(text: string)
    requires Strip(text) == text
    ensures ParseLine(": " + text, false) == Entry("", text)
  {
    var line := ": " + text;
    StrippedEnds(text);
    if |text| > 0 {
      assert line[0] == ':' && line[|line| - 1] == text[|text| - 1];
      StripFixed(line);
      assert line[1..] == " " + text;
      assert StripLeft(" " + text) == StripLeft(text) by { assert (" " + text)[1..] == text; }
    } else {
      assert line == ":" + " ";
      StripFixed(":");
      assert StripRight(line) == StripRight(":");
      assert Strip(line) == ":";
      assert ":"[1..] == "";
    }
    assert Find(Strip(line), 0, ':') == 0;
    assert Strip("") == "";
  }

  /** A blank line adds nothing. */
  lemma ReadSkipsBlank(lines: seq<string>, line: string, sclite: bool, path: string)
    requires IsBlank(line)
    ensures ReadTrn(lines + [line], sclite, path) == ReadTrn(lines, sclite, path)
  {
    var all := lines + [line];
    assert all[..|all| - 1] == lines;
  }

  // ---------------------------------------------------------------------
  // parse_compact_csv, over the rows already read

  /** The header and the rows of a CSV file, each row a map from column name
      to field; `None` when the file has no header. */
  datatype CsvTable = CsvTable(fieldnames: Option<seq<string>>, rows: seq<map<string, string>>)

  /** `row.get(column, '')`. */
  function Field(row: map<string, string>, column: string): string {
    if column in row then row[column] else ""
  }

  /** The triple of row number `number` (the header is row 1). */
  function RowTriple(row: map<string, string>, number: nat): Result<Triple> {
    var id := Strip(Field(row, "ID"));
    if |id| == 0 then Failure("Row " + Decimal(number) + ": ID cannot be empty")
    else Success((id, Strip(Field(row, "reference")), Strip(Field(row, "hypothesis"))))
  }

  function ReadRows(rows: seq<map<string, string>>): Result<seq<Triple>>
    decreases |rows|
  {
    if |rows| == 0 then Success([])
    else match ReadRows(rows[..|rows| - 1])
      case Failure(e) => Failure(e)
      case Success(ts) =>
        match RowTriple(rows[|rows| - 1], |rows| + 1)
        case Failure(e) => Failure(e)
        case Success(t) => Success(ts + [t])
  }

  const RequiredColumns: set<string> := {"ID", "reference", "hypothesis"}

  function FieldnamesText(names: Option<seq<string>>): string {
    if names.None? then "None" else ListText(names.value)
  }

  function ReadCsv(table: CsvTable): Result<seq<Triple>> {
    var names := if table.fieldnames.Some? then table.fieldnames.value else [];
    if !(RequiredColumns <= Elements(names)) then
      Failure("CSV must have columns: ID, reference, hypothesis. Found: " + FieldnamesText(table.fieldnames))
    else ReadRows(table.rows)
  }

  /** `parse_compact_csv` over the header and rows. */
  method ParseCompactCsv(table: CsvTable) returns (r: Result<seq<Triple>>)
    ensures r == ReadCsv(table)
  {
    var names := if table.fieldnames.Some? then table.fieldnames.value else [];
    if !(RequiredColumns <= Elements(names)) {
      return Failure("CSV must have columns: ID, reference, hypothesis. Found: " + FieldnamesText(table.fieldnames));
    }
    r := ParseRows(table.rows);
  }

  /** The loop over the rows, numbered from 2. */
  method ParseRows(rows: seq<map<string, string>>) returns (r: Result<seq<Triple>>)
    ensures r == ReadRows(rows)
  {
    var results: seq<Triple> := [];
    var n := 0;
    while n < |rows|
      invariant 0 <= n <= |rows|
      invariant ReadRows(rows[..n]) == Success(results)
    {
      RowsPrefix(rows, n, results);
      var row := rows[n];
      var idText := Strip(Field(row, "ID"));
      if |idText| == 0 {
        RowErrorPersists(rows, n + 1);
        return Failure("Row " + Decimal(n + 2) + ": ID cannot be empty");
      }
      results := results + [(idText, Strip(Field(row, "reference")), Strip(Field(row, "hypothesis")))];
      n := n + 1;
    }
    assert rows[..n] == rows;
    r := Success(results);
  }

  lemma RowsPrefix(rows: seq<map<string, string>>, n: nat, ts: seq<Triple>)
    requires n < |rows| && ReadRows(rows[..n]) == Success(ts)
    ensures ReadRows(rows[..n + 1]) ==
      match RowTriple(rows[n], n + 2)
      case Failure(e) => Failure(e)
      case Success(t) => Success(ts + [t])
  {
    assert rows[..n + 1][..n] == rows[..n];
  }

  lemma {:induction false} RowErrorPersists(rows: seq<map<string, string>>, m: nat)
    requires 0 < m <= |rows| && ReadRows(rows[..m - 1]).Success? && RowTriple(rows[m - 1], m + 1).Failure?
    ensures ReadRows(rows) == Failure(RowTriple(rows[m - 1], m + 1).error)
    decreases |rows|
  {
    if m < |rows| {
      var front := rows[..|rows| - 1];
      assert front[..m - 1] == rows[..m - 1] && front[m - 1] == rows[m - 1];
      RowErrorPersists(front, m);
    } else {
      assert rows[..m - 1] == rows[..|rows| - 1];
    }
  }

  /** The stripped ID, reference and hypothesis of a row. */
  function Fields(row: map<string, string>): Triple {
    (Strip(Field(row, "ID")), Strip(Field(row, "reference")), Strip(Field(row, "hypothesis")))
  }

  /** The rows are read exactly when every row has a non-blank ID, and then row
      `k` becomes the triple of its stripped ID, reference and hypothesis. */
  lemma {:induction false} ReadRowsIff(rows: seq<map<string, string>>)
    ensures ReadRows(rows).Success? <==> forall k :: 0 <= k < |rows| ==> !IsBlank(Field(rows[k], "ID"))
    ensures ReadRows(rows).Success? ==>
      && |ReadRows(rows).value| == |rows|
      && forall k :: 0 <= k < |rows| ==> ReadRows(rows).value[k] == Fields(rows[k])
    decreases |rows|
  {
    if |rows| > 0 {
      var front := rows[..|rows| - 1];
      var last := rows[|rows| - 1];
      ReadRowsIff(front);
      StripEmptyIffBlank(Field(last, "ID"));
      match ReadRows(front)
      case Failure(_) =>
        assert !(forall k :: 0 <= k < |front| ==> !IsBlank(Field(front[k], "ID")));
        var k :| 0 <= k < |front| && IsBlank(Field(front[k], "ID"));
        assert front[k] == rows[k];
      case Success(ts) =>
        if !IsBlank(Field(last, "ID")) {
          var ts' := ts + [Fields(last)];
          assert ReadRows(rows) == Success(ts');
          forall k | 0 <= k < |rows| ensures ts'[k] == Fields(rows[k]) && !IsBlank(Field(rows[k], "ID")) {
            if k < |front| {
              assert front[k] == rows[k];
            }
          }
        }
    }
  }

  /** Every triple read from the rows has a non-empty ID. */
  lemma RowIdsNonEmpty(rows: seq<map<string, string>>)
    requires ReadRows(rows).Success?
    ensures forall k :: 0 <= k < |ReadRows(rows).value| ==> |ReadRows(rows).value[k].0| > 0
  {
    ReadRowsIff(rows);
    forall k | 0 <= k < |rows| ensures |Fields(rows[k]).0| > 0 {
      StripEmptyIffBlank(Field(rows[k], "ID"));
    }
  }

  // ---------------------------------------------------------------------
  // load_inputs

  /** A TRN file: its path, used in messages, and its lines. */
  datatype TrnFile = TrnFile(path: string, lines: seq<string>)

  const MutuallyExclusive :=
    "Options --compact-input (-ci) and --hypothesis/--reference (-h/-r) are mutually exclusive. Use one or the other."

  const MustProvideBoth :=
    "Must provide both --hypothesis (-h) and --reference (-r), or use --compact-input (-ci)"

  /** `dict.get(id, '')`. */
  function TextOf(d: map<string, string>, id: string): string {
    if id in d then d[id] else ""
  }

  /** One triple per ID of either file, in ascending order, with '' for the
      side that lacks the ID; a repeated ID takes its last line's text. */
  ghost function Merge(refs: seq<Record>, hyps: seq<Record>): seq<Triple> {
    MergeOf(SortedOf(IdsOf(hyps) + IdsOf(refs)), MapOf(refs), MapOf(hyps))
  }

  function MergeOf(ids: seq<string>, refDict: map<string, string>, hypDict: map<string, string>): seq<Triple> {
    seq(|ids|, k requires 0 <= k < |ids| => (ids[k], TextOf(refDict, ids[k]), TextOf(hypDict, ids[k])))
  }

  ghost function Inputs(hypothesis: Option<TrnFile>, reference: Option<TrnFile>, compact: Option<CsvTable>, sclite: bool)
    : Result<seq<Triple>>
  {
    if compact.Some? then
      if hypothesis.Some? || reference.Some? then Failure(MutuallyExclusive) else ReadCsv(compact.value)
    else if hypothesis.None? || reference.None? then Failure(MustProvideBoth)
    else
      match ReadTrn(hypothesis.value.lines, sclite, hypothesis.value.path)
      case Failure(e) => Failure(e)
      case Success(hyps) =>
        match ReadTrn(reference.value.lines, sclite, reference.value.path)
        case Failure(e) => Failure(e)
        case Success(refs) => Success(Merge(refs, hyps))
  }

  /** `load_inputs`: a compact CSV excludes the TRN files; otherwise both TRN
      files are read, hypothesis first, and merged by ID. */
  method LoadInputs(hypothesis: Option<TrnFile>, reference: Option<TrnFile>, compact: Option<CsvTable>, sclite: bool)
    returns (r: Result<seq<Triple>>)
    ensures r == Inputs(hypothesis, reference, compact, sclite)
  {
    if compact.Some? {
      if hypothesis.Some? || reference.Some? {
        return Failure(MutuallyExclusive);
      }
      r := ParseCompactCsv(compact.value);
      return;
    }
    if hypothesis.None? || reference.None? {
      return Failure(MustProvideBoth);
    }
    var hypRead := ParseTrnFile(hypothesis.value.lines, sclite, hypothesis.value.path);
    if hypRead.Failure? {
      return Failure(hypRead.error);
    }
    var refRead := ParseTrnFile(reference.value.lines, sclite, reference.value.path);
    if refRead.Failure? {
      return Failure(refRead.error);
    }
    var hypDict := MapOf(hypRead.value);
    var refDict := MapOf(refRead.value);
    MapOfDomain(hypRead.value);
    MapOfDomain(refRead.value);
    var ids := SortIds(hypDict.Keys + refDict.Keys);
    var results := MergeTriples(ids, refDict, hypDict);
    r := Success(results);
  }

  /** The loop over the sorted IDs of both files. */
  method MergeTriples(ids: seq<string>, refDict: map<string, string>, hypDict: map<string, string>)
    returns (results: seq<Triple>)
    ensures results == MergeOf(ids, refDict, hypDict)
  {
    results := [];
    var i := 0;
    while i < |ids|
      invariant 0 <= i <= |ids|
      invariant |results| == i
      invariant forall k :: 0 <= k < i ==> results[k] == (ids[k], TextOf(refDict, ids[k]), TextOf(hypDict, ids[k]))
    {
      var id := ids[i];
      var refText := if id in refDict then refDict[id] else "";
      var hypText := if id in hypDict then hypDict[id] else "";
      results := results + [(id, refText, hypText)];
      i := i + 1;
    }
  }

  // ---------------------------------------------------------------------
  // Properties of loading

  /** The option errors: a compact CSV together with a TRN path is refused, and
      without a CSV both TRN paths are needed. These are the only cases that
      fail before any file is read. */
  lemma OptionChecks(hypothesis: Option<TrnFile>, reference: Option<TrnFile>, compact: Option<CsvTable>, sclite: bool)
    ensures compact.Some? && (hypothesis.Some? || reference.Some?) ==>
      Inputs(hypothesis, reference, compact, sclite) == Failure(MutuallyExclusive)
    ensures compact.None? && (hypothesis.None? || reference.None?) ==>
      Inputs(hypothesis, reference, compact, sclite) == Failure(MustProvideBoth)
    ensures compact.Some? && hypothesis.None? && reference.None? ==>
      Inputs(hypothesis, reference, compact, sclite) == ReadCsv(compact.value)
    ensures compact.None? && hypothesis.Some? && reference.Some? ==>
      var hypRead := ReadTrn(hypothesis.value.lines, sclite, hypothesis.value.path);
      var refRead := ReadTrn(reference.value.lines, sclite, reference.value.path);
      && (Inputs(hypothesis, reference, compact, sclite).Success? <==> hypRead.Success? && refRead.Success?)
      && (hypRead.Success? && refRead.Success? ==>
            Inputs(hypothesis, reference, compact, sclite).value == Merge(refRead.value, hypRead.value))
  {
  }

  /** `(id, t)` is the last record with ID `id`. */
  predicate LastWith(rs: seq<Record>, id: string, t: string) {
    exists i :: 0 <= i < |rs| && rs[i] == (id, t) && forall j :: i < j < |rs| ==> rs[j].0 != id
  }

  /** The last record with a given ID is the one the dictionary keeps. */
  lemma {:induction false} LastRecord(rs: seq<Record>, id: string) returns (i: nat)
    requires id in IdsOf(rs)
    ensures i < |rs| && rs[i].0 == id && (forall j :: i < j < |rs| ==> rs[j].0 != id)
    ensures id in MapOf(rs) && MapOf(rs)[id] == rs[i].1
    decreases |rs|
  {
    if rs[|rs| - 1].0 == id {
      i := |rs| - 1;
    } else {
      var front := rs[..|rs| - 1];
      var k :| 0 <= k < |rs| && rs[k].0 == id;
      assert front[k] == rs[k];
      i := LastRecord(front, id);
      assert front[i] == rs[i];
    }
  }

  /** The text looked up for an ID is '' when no record has it, and otherwise
      the text of its last record. */
  lemma TextOfRecords(rs: seq<Record>, id: string)
    ensures id !in IdsOf(rs) ==> TextOf(MapOf(rs), id) == ""
    ensures id in IdsOf(rs) ==> LastWith(rs, id, TextOf(MapOf(rs), id))
  {
    MapOfDomain(rs);
    if id in IdsOf(rs) {
      var i := LastRecord(rs, id);
      assert rs[i] == (id, TextOf(MapOf(rs), id));
    }
  }

  /** The merged triples are sorted strictly by ID and hold one triple for each
      ID of either file and no other. */
  lemma MergeIds(refs: seq<Record>, hyps: seq<Record>)
    ensures var ts := Merge(refs, hyps);
      && (forall i, j :: 0 <= i < j < |ts| ==> Less(ts[i].0, ts[j].0))
      && (set k | 0 <= k < |ts| :: ts[k].0) == IdsOf(hyps) + IdsOf(refs)
  {
    var ts := Merge(refs, hyps);
    var ids := SortedOf(IdsOf(hyps) + IdsOf(refs));
    assert forall k :: 0 <= k < |ts| ==> ts[k].0 == ids[k];
    assert (set k | 0 <= k < |ts| :: ts[k].0) == Elements(ids) by {
      forall x | x in Elements(ids) ensures x in (set k | 0 <= k < |ts| :: ts[k].0) {
        var k :| 0 <= k < |ids| && ids[k] == x;
        assert ts[k].0 == x;
      }
    }
  }

  /** Each merged triple holds its ID's reference text from the last reference
      line with that ID, or '' when the reference file lacks the ID. */
  lemma MergeReference(refs: seq<Record>, hyps: seq<Record>)
    ensures var ts := Merge(refs, hyps);
      forall k :: 0 <= k < |ts| ==>
        && (ts[k].0 !in IdsOf(refs) ==> ts[k].1 == "")
        && (ts[k].0 in IdsOf(refs) ==> LastWith(refs, ts[k].0, ts[k].1))
  {
    var ts := Merge(refs, hyps);
    forall k | 0 <= k < |ts|
      ensures ts[k].0 !in IdsOf(refs) ==> ts[k].1 == ""
      ensures ts[k].0 in IdsOf(refs) ==> LastWith(refs, ts[k].0, ts[k].1)
    {
      TextOfRecords(refs, ts[k].0);
    }
  }

  /** Each merged triple holds its ID's hypothesis text from the last
      hypothesis line with that ID, or '' when the hypothesis file lacks it. */
  lemma MergeHypothesis(refs: seq<Record>, hyps: seq<Record>)
    ensures var ts := Merge(refs, hyps);
      forall k :: 0 <= k < |ts| ==>
        && (ts[k].0 !in IdsOf(hyps) ==> ts[k].2 == "")
        && (ts[k].0 in IdsOf(hyps) ==> LastWith(hyps, ts[k].0, ts[k].2))
  {
    var ts := Merge(refs, hyps);
    forall k | 0 <= k < |ts|
      ensures ts[k].0 !in IdsOf(hyps) ==> ts[k].2 == ""
      ensures ts[k].0 in IdsOf(hyps) ==> LastWith(hyps, ts[k].0, ts[k].2)
    {
      TextOfRecords(hyps, ts[k].0);
    }
  }
}
