# Verified model of the metrix WER/CER core

This project models the scoring core of *metrix*, a command-line tool that
measures automatic speech recognition output against reference transcripts.
The tool computes the word error rate (WER) or character error rate (CER):
the substitutions, deletions and insertions needed to turn a reference into a
hypothesis, divided by the size of the reference. The model covers:

- **Per-pair metrics** (`metrics.dfy`). Blank references are handled as
  special cases, and accuracy is correct units over the reference count. The
  original delegates the alignment to the jiwer library. Here it is a
  verified aligner, in `aligner.dfy`:
  - a Levenshtein cost table over `array2` filled by nested loops;
  - a backtrack that emits Hit, Substitution, Deletion and Insertion ops.

  Both are proved equal to functional definitions. The alignment is proved to
  rebuild both sequences, to satisfy the count identities and to be minimal
  among all alignments.
- **The batch computation.** It sums the per-pair counts, keeps one alignment
  record per pair and applies the corpus rule, including its zero-denominator
  cases (`batch.dfy`).
- **The text normaliser** (`transformer.dfy`, over `text.dfy`): lowercase,
  dashes to spaces, quote removal, the punctuation filter, whitespace collapse
  and trim.
- **The lexical adjustments** (`adjustments.dfy`):
  - whole-word literal substitution, case-sensitive or not;
  - reference replacements, equivalences and clean-up, run in that order;
  - the key and type checks applied when adjustments are loaded from a JSON
    value.
- **TRN line parsing** (`trn.dfy`): the native `ID: text` and sclite
  `text (ID)` line formats, and the ID-to-text dictionary built from the
  records.
- **The input validator** (`validator.dfy`):
  - per-line checks, empty and repeated IDs, and expected-ID matching;
  - the reference/hypothesis pair merge;
  - the six overlap checks of the adjustments-consistency validator.
- **The input loader** (`loader.dfy`):
  - TRN reading without ID checks, and compact CSV rows;
  - the option checks;
  - the merge of two files into `(id, reference, hypothesis)` triples sorted
    by ID.

Rates are exact `real` ratios. IDs are ordered by `Ids.Less`, which is
Python's code-point order on strings. `sorted(set)` is the ghost function
`Ids.SortedOf`, computed by the method `Ids.SortIds`. File contents enter the
model as sequences of lines, as CSV rows (maps from column name to field), or
as an abstract JSON value.

## Model

| member | source | states |
|---|---|---|
| Aligner.CostTable | src/metrics_calculator.py:56 | every cell `cost[i, j]` of the filled table is the edit distance `Dist` of the length-`i` reference prefix and the length-`j` hypothesis prefix |
| Aligner.Backtrack | src/metrics_calculator.py:56 | walking the table back from the corner yields exactly the functional alignment `Trace(a, b)` (tie-break: match, substitution, deletion, insertion) |
| Aligner.Align | src/metrics_calculator.py:176-177 | the aligner returns `Trace(a, b)`, the alignment whose properties the lemmas below prove |
| Aligner.TraceCorrect | src/metrics_calculator.py:55-67 | the alignment rebuilds the reference when insertions are ignored and the hypothesis when deletions are ignored; its error count is the edit distance; no substitution pairs equal tokens |
| Aligner.CountIdentities | src/metrics_calculator.py:63-66 | hits + substitutions + deletions = reference length; hits + substitutions + insertions = hypothesis length; hits + errors = number of ops |
| Aligner.DistMinimal | src/metrics_calculator.py:67 | no alignment of the two sequences has fewer errors than the edit distance |
| Aligner.TraceIsOptimal | src/metrics_calculator.py:67 | the produced alignment has at most the errors of any other alignment of the same sequences |
| Aligner.DistZeroIffEqual | src/metrics_calculator.py:67 | the distance is 0 exactly when the sequences are equal |
| Aligner.DistBounds | src/metrics_calculator.py:67 | the distance is at least the length difference and at most the longer length |
| Aligner.DistSymmetric | src/metrics_calculator.py:67 | swapping reference and hypothesis does not change the distance |
| Aligner.TraceOfEqual | src/metrics_calculator.py:63-67 | aligning a sequence with itself gives only hits and no error |
| Aligner.TraceAgainstEmpty | src/metrics_calculator.py:63-67 | against an empty side the alignment is all insertions (empty reference) or all deletions (empty hypothesis) |
| Aligner.DistOnePosition | src/metrics_calculator.py:67 | sequences that differ in one position are at distance 1 |
| Aligner.DistOneSubstitution | src/metrics_calculator.py:63-67 | `[x, y]` against `[x, z]` with `y != z` is at distance 1 |
| Aligner.DistOneDeletion | src/metrics_calculator.py:63-67 | `[x, y]` against `[x]` is at distance 1 |
| Aligner.DistOneInsertion | src/metrics_calculator.py:63-67 | `[x]` against `[x, y]` is at distance 1 |
| Aligner.CountsDependOnAlignment | src/metrics_calculator.py:63-66 | "ab" against "ba" has two minimal alignments with different substitution counts, so only the error total is fixed by the inputs |
| Metrics.AlignAndTally | src/metrics_calculator.py:55-70 | the tally of the computed alignment is `UnitMetrics` (its counts, `errors/|ref|` as rate, correct/count as accuracy) |
| Metrics.CalculateWerMetrics | src/metrics_calculator.py:9-83 | the WER metrics of a pair are `WerMetrics`: the blank cases, else the word alignment of `split()` |
| Metrics.CalculateCerMetrics | src/metrics_calculator.py:86-159 | the CER metrics of a pair are `CerMetrics`: the blank cases, else the character alignment of the stripped texts with `len(reference)` as count |
| Metrics.GetAlignment | src/metrics_calculator.py:162-181 | the alignment is over words for WER and over characters for CER |
| Metrics.UnitMetricsFacts | src/metrics_calculator.py:55-70 | the counts satisfy both identities; the errors equal the edit distance and are at most those of any alignment; rate = errors/units and accuracy = correct/count |
| Metrics.BothBlankMetrics | src/metrics_calculator.py:29-40 | both texts blank: rate 0, accuracy 1, every count 0 (WER and CER alike) |
| Metrics.BlankReferenceMetrics | src/metrics_calculator.py:41-52 | blank reference, non-blank hypothesis: rate 1, accuracy 0, count 0, and insertions are the hypothesis words (WER) or all its code points (CER) |
| Metrics.WerCounts | src/metrics_calculator.py:55-70 | for a non-blank reference, `word_count = len(reference.split()) > 0`; both identities hold; errors are the word distance; rate = errors/count; accuracy = correct/count |
| Metrics.CerCounts | src/metrics_calculator.py:132-146 | for a non-blank reference, `character_count = len(reference)`; the identities hold over the stripped texts; errors are the character distance; accuracy = correct/`len(reference)` |
| Metrics.WerIdentical | src/metrics_calculator.py:55-70 | identical non-blank texts score rate 0, accuracy 1, correct = word count |
| Metrics.CerIdentical | src/metrics_calculator.py:132-146 | identical trimmed non-blank texts score rate 0, accuracy 1, correct = character count |
| Metrics.CerSelf | src/metrics_calculator.py:136-146 | a text scored against itself has rate 0, and accuracy 1 exactly when it has no outer whitespace |
| Metrics.WerRatePlusAccuracy | src/metrics_calculator.py:67-70 | for a non-blank reference, rate + accuracy >= 1 and accuracy lies in [0, 1] |
| Metrics.WerOneSubstitution | src/metrics_calculator.py:55-70 | "x y" against "x z" gives one substitution, one hit, rate 1/2 |
| Metrics.WerOneDeletion | src/metrics_calculator.py:55-70 | "x y" against "x" gives one deletion, rate 1/2 |
| Metrics.WerOneInsertion | src/metrics_calculator.py:55-70 | "x" against "x y" gives one insertion, rate 1, accuracy 1 |
| Metrics.CerOneSubstitution | src/metrics_calculator.py:132-146 | trimmed texts that differ in one character give one substitution and rate 1/len |
| Batch.CalculateMetricsBatch | src/metrics_calculator.py:184-280 | the batch result is `CalculateBatch`: the length error, else the per-pair records and the aggregate of their summed totals |
| Batch.AccumulatePairs | src/metrics_calculator.py:215-236 | the loop's records are one per pair in order, and its running totals are the sum of their metrics |
| Batch.CalculatePairMetrics | src/metrics_calculator.py:216-221 | each pair is scored by the metric chosen for the batch |
| Batch.BatchFailsIffLengthsDiffer | src/metrics_calculator.py:204-205 | the batch fails exactly when the lists differ in length, with the source's message |
| Batch.BatchRecords | src/metrics_calculator.py:215-236 | one record per pair, in input order, carrying its reference, hypothesis, alignment and metrics; `total_sentences` is the number of pairs |
| Batch.EmptyBatch | src/metrics_calculator.py:243-251 | the empty batch scores rate 0, accuracy 1, all counts 0 and no records |
| Batch.SumAppend | src/metrics_calculator.py:223-227 | the totals of two concatenated lists are the sums of their totals |
| Batch.BatchSplit | src/metrics_calculator.py:215-236 | a batch split in two has the concatenated records and the summed counts and sentence totals of its halves |
| Batch.SingleBatch | src/metrics_calculator.py:223-227 | a one-pair batch has that pair's counts and one sentence |
| Batch.SumCovers | src/metrics_calculator.py:223-227 | if every pair's correct + substitutions + deletions equals (or is at most) its count, so does the sum |
| Batch.WerPairCovers | src/metrics_calculator.py:58-70 | for WER, correct + substitutions + deletions is exactly the word count of every pair |
| Batch.CerPairWithin | src/metrics_calculator.py:133-136 | for CER, correct + substitutions + deletions is at most `len(reference)` |
| Batch.CorpusDenominator | src/metrics_calculator.py:239-255 | the corpus counts cover the WER word count exactly and stay within the CER count; with units, the rate is total errors over total count |
| Batch.AggregateRate | src/metrics_calculator.py:239-266 | the corpus rule: errors/count and correct/count when there are units; 1/0 with errors and no units; 0/1 with neither; `total_sentences` is the pair count |
| Batch.NotAnAverage | src/metrics_calculator.py:254 | one error in a one-word pair plus a perfect three-word pair score 1/4, not the mean 1/2 of the pair rates |
| Transformer.TransformText | src/text_transformer.py:10-71 | the result is the per-character rewrite of the text (the lowercase, dash, quote and punctuation stages, as `CharImage`) followed by whitespace normalisation, so it is trimmed and single-spaced |
| Transformer.TransformCanonical | src/text_transformer.py:65-69 | the output has no leading or trailing whitespace and no two adjacent whitespace characters, and normalising it again changes nothing |
| Transformer.TransformContent | src/text_transformer.py:65-69 | whitespace normalisation keeps every non-space character of the rewritten text, in order |
| Transformer.TransformAllowed | src/text_transformer.py:39-63 | no output character is upper case (case-insensitive), a dash (hyphens neutralised), a quote (apostrophes neutralised) or listed punctuation (punctuation removed) |
| Transformer.DashIsSpace | src/text_transformer.py:43-46 | with hyphens neutralised, any of the three dashes acts exactly as a space |
| Transformer.HyphenKept | src/text_transformer.py:56-63 | without hyphen neutralisation a '-' survives every other stage |
| Transformer.CaseFolding | src/text_transformer.py:39-40 | the case-insensitive result is the lowercase of the case-sensitive result |
| Transformer.IdentityOptions | src/text_transformer.py:36-71 | with case kept, punctuation kept and no neutralisation, only whitespace is normalised, so canonical text is returned unchanged |
| Transformer.CaseSensitiveKeepsLetter | src/text_transformer.py:39-40 | with case sensitivity every letter passes all four stages unchanged |
| Transformer.CaseSensitiveKeepsText | src/text_transformer.py:36-71 | with case sensitivity, whatever the other switches, trimmed single-spaced text of letters comes back unchanged |
| Transformer.HelloWorldKept | test/test_text_transformer.py:17-20 | "Hello World" with case sensitivity is returned as "Hello World" |
| Transformer.ApplyBasicTransformations | src/text_transformer.py:96-112 | the reference and the hypothesis each go through the same per-character pipeline and come out trimmed and single-spaced |
| Transformer.BasicTransformationsAgree | src/text_transformer.py:96-112 | both texts go through the same pipeline: equal rewrites give equal results, and empty inputs give empty outputs |
| Adjustments.ApplyReferenceReplacements | src/adjustments_processor.py:56-87 | the loop applies each replacement in dictionary order to the running text (`ReplaceAll`) |
| Adjustments.ApplyEquivalences | src/adjustments_processor.py:90-131 | the loop rewrites each group's later variants to its first element, skipping empty groups and variants equal to it |
| Adjustments.ApplyCleanUp | src/adjustments_processor.py:134-164 | the loop removes each listed item, then whitespace is collapsed and trimmed |
| Adjustments.WholeWordMatch | src/adjustments_processor.py:79-85 | a word term matches exactly where the text equals it (ignoring case if asked) and neither neighbour is a word character |
| Adjustments.ExactMatchIgnoringCase | src/adjustments_processor.py:80-83 | every exact-case match is also a case-insensitive match |
| Adjustments.NoMatchUnchanged | src/adjustments_processor.py:85 | a text with no whole-word occurrence of the term is unchanged |
| Adjustments.FirstMatchReplaced | src/adjustments_processor.py:85 | when the first whole-word match of a non-empty term is at position p, the result is the text before p, the replacement, then the substitution of the rest after the match |
| Adjustments.OnlyMatchReplaced | src/adjustments_processor.py:85 | a single whole-word match is replaced and every other character is kept |
| Adjustments.ReplacementExamples | test/test_adjustments_processor.py:90-116 | "teh cat" and "Teh cat" become "the cat" ignoring case; "Teh cat" stays case-sensitively; "tehater" stays because "teh" is not a whole word there |
| Adjustments.SubstituteSelf | src/adjustments_processor.py:85 | replacing a term by itself, case-sensitively, changes nothing |
| Adjustments.EmptyAdjustments | src/adjustments_processor.py:188-228 | no replacements, equivalences or clean-up leave both texts unchanged |
| Adjustments.ApplyAdjustments | src/adjustments_processor.py:167-228 | without equivalences and clean-up the hypothesis is returned as it is; after a non-empty clean-up both results are trimmed and single-spaced |
| Adjustments.HypothesisIgnoresReplacements | src/adjustments_processor.py:194-200 | the adjusted hypothesis does not depend on the reference or the replacements |
| Adjustments.ReplacementsOnlyReference | src/adjustments_processor.py:194-200 | with replacements only, the reference gets them and the hypothesis is untouched |
| Adjustments.StagesInOrder | src/adjustments_processor.py:188-228 | applying all stages equals replacements on the reference, then equivalences on both, then clean-up on both |
| Adjustments.CleanUpNothing | src/adjustments_processor.py:160-162 | clean-up with no items still normalises whitespace, and its result is already normal |
| Adjustments.CleanUpExample | test/test_adjustments_processor.py:158-163 | removing "uh" and "ah" from "uh  hello  ah" leaves "hello" |
| Adjustments.OneEquivalence | src/adjustments_processor.py:109-129 | a two-element group rewrites the second element to the first unless they are equal; the group's name plays no part |
| Adjustments.EquivalenceExample | test/test_adjustments_processor.py:122-127 | the group ["want to", "wanna"] turns "wanna go" into "want to go" |
| Adjustments.EquivalenceNamesIgnored | src/adjustments_processor.py:109-113 | renaming the groups does not change the result: the canonical form is `variants[0]`, not the key |
| Adjustments.TrivialEquivalence | src/adjustments_processor.py:110-116 | a group of fewer than two elements changes nothing |
| Adjustments.FirstUnknownKey | src/adjustments_processor.py:35-38 | no key is reported exactly when every key is valid; a reported key is an invalid key of the object |
| Adjustments.LoadAdjustments | src/adjustments_processor.py:11-53 | loading succeeds exactly for an object with only valid keys whose present fields have the required kinds, and then returns the value unchanged |
| Adjustments.UnknownKeyFirst | src/adjustments_processor.py:36-38 | an object with an unknown key fails with "Unknown key in adjustments JSON: " and the first such key |
| Adjustments.EmptyObjectLoads | src/adjustments_processor.py:35-53 | `{}` loads and means no adjustments |
| Adjustments.GroupOf | src/adjustments_processor.py:109-129 | a false value (null, false, 0, "", [], {}) is an empty group and is skipped; a string is the group of its characters; a list must hold strings; `true`, a non-zero number or a non-empty object has no group |
| Adjustments.AdjustmentsOf | src/adjustments_processor.py:188-228 | the case flag is true exactly when `case_sensitive` is `true`, and an absent stage is empty |
| Adjustments.AdjustmentsOfEntries | src/adjustments_processor.py:76-85 | each replacement and equivalence entry keeps its key, its position and its value (an equivalence value read by `GroupOf`) |
| Adjustments.StringEquivalenceGroup | src/adjustments_processor.py:109-129 | `{"x": "ab", "y": null}` gives the group ["a", "b"] for "x" and skips "y" |
| Ids.LessTotal | src/input_validator.py:189 | the ID order is total and asymmetric |
| Ids.LessTransitive | src/input_validator.py:189 | the ID order is transitive |
| Ids.SortIds | src/input_validator.py:189 | the sorting loop returns `SortedOf(s)`: the strictly ascending list of exactly the set's elements |
| Ids.SortedUnique | src/input_validator.py:189 | two strictly sorted lists with the same elements are equal, so `sorted` of a set is determined |
| Trn.ParseLine | src/input_validator.py:68-104 | a line yields nothing exactly when it is all whitespace; a native line can be rejected only for a missing colon, a sclite line only for not matching the pattern |
| Trn.NativeSplit | src/input_validator.py:89-104 | a native line is refused exactly when it is not blank and has no ':'; otherwise it splits at the first ':' into stripped parts |
| Trn.ColonFreeId | src/input_validator.py:95-103 | a native ID never contains ':' |
| Trn.ScliteShape | src/input_validator.py:78-86 | an accepted sclite line is `text`, non-empty whitespace, `(`, an ID free of ')', `)`, trailing whitespace |
| Trn.ScliteComplete | src/input_validator.py:78 | every line of that shape is accepted, with the shortest possible text group |
| Trn.ScliteRoundTrip | src/input_validator.py:75-86 | for a non-empty stripped text without '(' and a non-empty stripped ID without ')', writing `text (id)` and parsing it in sclite mode gives back `(id, text)` |
| Trn.NativeRoundTrip | src/input_validator.py:89-104 | for a non-empty stripped ID without ':' and a stripped text, writing `id: text` and parsing it in native mode gives back `(id, text)` |
| Trn.MapOfDomain | src/input_validator.py:184-185 | the dictionary built from the records has exactly their IDs as keys |
| Trn.MapOfLast | src/input_handler.py:144-145 | a record with no later record of the same ID gives the dictionary's text for that ID |
| Trn.MapOfDistinct | src/input_validator.py:184-185 | with distinct IDs, the dictionary holds exactly the records |
| Validator.ValidateTrnFormat | src/input_validator.py:36-146 | the loop's outcome is `TrnFormat`: the first line error, else the expected-ID check, else the records and their ID set |
| Validator.ReadLines | src/input_validator.py:63-127 | the line loop's outcome is `ParseLines`, and on success the ID set it keeps is exactly the IDs of its records |
| Validator.ParseLinesIff | src/input_validator.py:63-127 | lines are accepted exactly when every non-blank line is an entry with a non-empty, not yet seen ID, and the records are those entries in file order |
| Validator.AcceptedRecords | src/input_validator.py:107-146 | accepted records have non-empty, distinct IDs; the returned set is their IDs and equals the expected set when one is given |
| Validator.ExpectedIds | src/input_validator.py:130-144 | with expected IDs, success exactly when the found set equals them; missing IDs are reported first, extra IDs only when none are missing |
| Validator.BlankLinesSkipped | src/input_validator.py:71-72 | appending a blank line changes nothing |
| Validator.DuplicateFails | src/input_validator.py:113-117 | a line repeating an accepted ID fails with the duplicate error at that line's number |
| Validator.ValidateTrnPair | src/input_validator.py:149-194 | the pair outcome is `TrnPair`: reference checked first, hypothesis against its IDs, then one triple per reference ID in sorted order |
| Validator.PairTriples | src/input_validator.py:176-194 | the triples are strictly sorted by ID, cover exactly the reference IDs (equal to the hypothesis IDs), and pair each ID's reference and hypothesis records |
| Validator.CollectVariants | src/input_validator.py:423-425 | the loop collects the normalised elements of every equivalence group |
| Validator.ValidateAdjustmentsConsistency | src/input_validator.py:392-483 | the outcome is `Consistency`: a report per non-empty overlap, in check order, under the source's header |
| Validator.CollectReports | src/input_validator.py:428-479 | the loop's errors are the reports of the non-empty overlaps, in order |
| Validator.ReportsEmpty | src/input_validator.py:428-481 | there are no reports exactly when every overlap is empty |
| Validator.ConsistencyIff | src/input_validator.py:428-483 | the check fails exactly when one of the six overlaps is non-empty (variants/canonicals, variants/replacement keys, canonicals/replacement keys, variants/replacement values, clean-up/equivalence words, clean-up/replacement words) |
| Validator.ConsistentWithoutOverlaps | src/input_validator.py:428-481 | six overlaps are checked, and success means all are empty |
| Validator.CaseInsensitiveConflict | src/input_validator.py:413-426 | case-insensitively, a clean-up word equal up to case to a replacement key is a conflict |
| Loader.ParseTrnFile | src/input_handler.py:11-55 | the loop's result is `ReadTrn`: the first line error, wrapped with line number and path, else the records |
| Loader.ReadErrorPersists | src/input_handler.py:52-53 | the first failing line decides the error: later lines do not change it |
| Loader.ReadTrnIff | src/input_handler.py:23-55 | a file is read exactly when every non-blank line is well formed, giving one record per non-blank line in order, whatever the IDs |
| Loader.ReadAgreesWithValidator | src/input_handler.py:27-51 | wherever the validator accepts a file, the loader reads the same records |
| Loader.EmptyIdKept | src/input_handler.py:43-51 | the line `: text` is read as the empty ID with its text, while the validator refuses it |
| Loader.ReadSkipsBlank | src/input_handler.py:27-29 | appending a blank line changes nothing |
| Loader.ParseCompactCsv | src/input_handler.py:58-91 | the result is `ReadCsv`: the missing-column error, else the first row with a blank ID, else one stripped triple per row |
| Loader.ParseRows | src/input_handler.py:81-89 | the row loop's result is `ReadRows`: the first row with a blank ID fails with its number (the header is row 1), else one stripped triple per row |
| Loader.ReadRowsIff | src/input_handler.py:81-89 | the rows are read exactly when every ID field is non-blank, and then row `k` gives the stripped `(ID, reference, hypothesis)` |
| Loader.RowIdsNonEmpty | src/input_handler.py:86-87 | every ID read from a CSV is non-empty |
| Loader.LoadInputs | src/input_handler.py:94-157 | the outcome is `Inputs`: the option errors, else the CSV rows, else both TRN files read (hypothesis first) and merged |
| Loader.OptionChecks | src/input_handler.py:116-131 | a CSV with either TRN path fails as mutually exclusive; no CSV and a missing TRN path fails with "Must provide both"; otherwise the CSV or the two files decide |
| Loader.LastRecord | src/input_handler.py:144-145 | the dictionary keeps the text of the last record with each ID |
| Loader.TextOfRecords | src/input_handler.py:153-154 | the looked-up text is '' for an absent ID and the last record's text otherwise |
| Loader.MergeIds | src/input_handler.py:147-157 | the merged triples are strictly sorted by ID and hold exactly the union of both files' IDs |
| Loader.MergeReference | src/input_handler.py:145-153 | each triple's reference text comes from the last reference line with its ID, or is '' when the reference lacks it |
| Loader.MergeHypothesis | src/input_handler.py:144-154 | each triple's hypothesis text comes from the last hypothesis line with its ID, or is '' when the hypothesis lacks it |

## Left out

- The jiwer library is replaced by the verified aligner. jiwer's own choice
  among equal-cost alignments and its `AlignmentChunk` objects are not
  modelled. The model's tie-break is match, then substitution, then deletion,
  then insertion.
- Counts are not fully determined by the inputs. Only the error total S+D+I
  is the same for every minimal alignment, and `Aligner.CountsDependOnAlignment`
  exhibits two minimal alignments with different counts. So a different
  aligner, such as jiwer's, may split the same total differently.
- CER follows the source code: the characters aligned are those of the
  stripped texts, as jiwer's default CER transform strips them, but
  `character_count` is `len(reference)`, outer whitespace included.
  Identities over the count therefore hold as `<=` for CER (`Batch.CerPairWithin`).
  They are exact once the input is trimmed, as the text normaliser guarantees.
- Metrics.WerMetrics, and with it Metrics.CalculateWerMetrics, aligns the words
  of `str.split()`. The source aligns the words of jiwer's default
  `process_words` transform, which collapses only runs of two or more
  whitespace characters, strips, and splits on " ". The two differ on a lone tab or newline inside a text ("a\tb" is one aligned
  word there and two words here). They agree on every text whose lone
  whitespace characters are all spaces. That includes `transform_text`
  output, which is what the command line scores (metrix.py:116-145); only an
  adjustment whose replacement inserts a lone tab or newline would tell the
  two apart.
- Metrics.UnitMetrics: the rate is errors over the aligned reference units, as
  jiwer computes it. Floating-point rounding and the `float()`/`int()`
  conversions are not modelled; rates are exact reals.
- The `except Exception` fallbacks that re-raise jiwer errors are not
  modelled, because the verified aligner cannot fail.
- src/output_generator.py and metrix.py are not part of this model:
  - output files, console tables, percentages and 6-decimal formatting;
  - command-line wiring and exit codes.
- File I/O is not part of this model. Inputs are the lines of a file, the
  rows of a CSV, or a JSON value already parsed. Left out with it:
  - file existence checks and `FileNotFoundError`;
  - UTF-8 validation;
  - `csv.DictReader` and `csv.Sniffer` (a short row whose fields come back
    as `None` is not represented);
  - `json.load` and its errors;
  - `validate_compact_csv`.
- Loader.FieldnamesText renders the header list with single quotes. Python's
  list repr would switch to double quotes for a name that contains one.
- Validator.Message omits the file path that the source puts into each
  validation message. The kind of error, the line number, the ID and the
  offending line are kept. The loader's messages do include the path.
- Unicode is only partly modelled:
  - Text.LowerChar lowercases ASCII and Latin-1 capitals only, not Python's
    full `str.lower`;
  - Text.IsSpace is the set of characters Python's `str.strip`/`split` and
    `\s` treat as whitespace;
  - Adjustments.IsWordChar models `\w` on ASCII and Latin-1 only;
  - case-insensitive matching compares characters after `Text.LowerChar`,
    rather than with Python's `(?i)` case folding.
- Replacement strings are inserted literally. The escape processing of
  `re.sub` templates is not modelled.
- Adjustments.LoadAdjustments returns a failure for a JSON value that is not
  an object, where the source would raise a Python error of its own.
  Duplicate member names in a JSON object are not modelled, and members are
  taken in their file order.
- Adjustments.AdjustmentsOf refuses, when the adjustments are read, values
  that the source only meets later, when it applies them:
  - a replacement value or a clean-up item that is not a string, on which the
    source's `re.sub` or `re.escape` raises;
  - an equivalence value that is `true`, a non-zero number or a non-empty
    object, on which `len` or `variants[0]` raises;
  - an equivalence list with an element that is not a string. The source
    raises on it only when it reaches `re.escape` or `re.sub`, so a list such
    as `[5]`, whose other elements all equal its first, runs without error
    there and is refused here.
  Equivalence values that are false (null, false, 0, "", [], {}) are skipped
  and a string is walked character by character, as the source does
  (`Adjustments.GroupOf`).
- Stop-word removal is not modelled. It belongs to a version of the text
  normaliser that is not part of this model and depends on NLTK.
- Transformer.Quotes holds only `'` and `"`. The lines of the normaliser
  that are commented as typographic apostrophe and quote use the ASCII
  characters again, so as written only the ASCII marks are removed.
