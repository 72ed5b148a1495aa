/** `transform_text`: case folding, dash and quote neutralisation, punctuation
    removal and whitespace normalisation, in that order. */
module Transformer {
  import opened Text

  /** The four switches of `transform_text`. */
  datatype Options = Options(
    caseSensitive: bool,
    keepPunctuation: bool,
    neutralizeHyphens: bool,
    neutralizeApostrophes: bool)

  /** The hyphen, the em dash and the en dash. */
  const Dashes: set<char> := {'-', '—', '–'}

  /** The apostrophe and the double quote. */
  const Quotes: set<char> := {'\'', '"'}

  /** ASCII punctuation without '-', '\'' and '"', and six further marks. */
  const PunctuationToRemove: set<char> := {
    '!', '#', '$', '%', '&', '(', ')', '*', '+', ',', '.', '/', ':', ';', '<', '=', '>',
    '?', '@', '[', '\\', ']', '^', '_', '`', '{', '|', '}', '~',
    '¿', '¡', '«', '»', '„', '‚'}

  /** `s.replace(c, d)` for single characters. */
  function ReplaceChar(s: string, c: char, d: char): (r: string)
    ensures |r| == |s|
    ensures forall i :: 0 <= i < |s| ==> r[i] == if s[i] == c then d else s[i]
  {
    seq(|s|, i requires 0 <= i < |s| => if s[i] == c then d else s[i])
  }

  /** `s.replace(c, '')`. */
  function RemoveChar(s: string, c: char): string {
    RemoveChars(s, {c})
  }

  /** The characters of `s` that are not in `cs`, in order. */
  function RemoveChars(s: string, cs: set<char>): string {
    if |s| == 0 then "" else (if s[0] in cs then "" else [s[0]]) + RemoveChars(s[1..], cs)
  }

  /** The chain of rewrites is a single pass over the characters, through
      `CharImage`, followed by whitespace normalisation; the result is in
      normal whitespace form. */
  function TransformText(text: string, o: Options): (r: string)
    ensures r == NormalizeSpaces(Images(text, o))
    ensures IsCanonical(r)
  {
    SpacedStages(text, o);
    RemovalStages(seq(|text|, i requires 0 <= i < |text| => Spaced(text[i], o)), o);
    ImagesAreRemoval(text, o);
    NormalizeIsJoin(Images(text, o));
    var lowered := if !o.caseSensitive then Lower(text) else text;
    var unhyphenated :=
      if o.neutralizeHyphens then ReplaceChar(ReplaceChar(ReplaceChar(lowered, '-', ' '), '—', ' '), '–', ' ')
      else lowered;
    var unquoted :=
      if o.neutralizeApostrophes then RemoveChar(RemoveChar(RemoveChar(RemoveChar(unhyphenated, '\''), '\''), '"'), '"')
      else unhyphenated;
    var unpunctuated := if !o.keepPunctuation then RemoveChars(unquoted, PunctuationToRemove) else unquoted;
    NormalizeSpaces(unpunctuated)
  }

  /** `apply_basic_transformations`: both texts through the same per-character
      pipeline, each coming out in normal whitespace form. */
  function ApplyBasicTransformations(reference: string, hypothesis: string, o: Options): (r: (string, string))
    ensures r.0 == NormalizeSpaces(Images(reference, o)) && r.1 == NormalizeSpaces(Images(hypothesis, o))
    ensures IsCanonical(r.0) && IsCanonical(r.1)
  {
    (TransformText(reference, o), TransformText(hypothesis, o))
  }

  // ---------------------------------------------------------------------
  // A per-character reference

  /** What the four rewriting stages make of one character: nothing, or one
      character. */
  function CharImage(c: char, o: Options): string {
    var lowered := if !o.caseSensitive then LowerChar(c) else c;
    var spaced := if o.neutralizeHyphens && lowered in Dashes then ' ' else lowered;
    if (o.neutralizeApostrophes && spaced in Quotes) || (!o.keepPunctuation && spaced in PunctuationToRemove) then ""
    else [spaced]
  }

  function Images(s: string, o: Options): string {
    if |s| == 0 then "" else CharImage(s[0], o) + Images(s[1..], o)
  }

  /** A character the output may hold under `o`. */
  predicate Allowed(c: char, o: Options) {
    && (!o.caseSensitive ==> !IsUpper(c))
    && (o.neutralizeHyphens ==> c !in Dashes)
    && (o.neutralizeApostrophes ==> c !in Quotes)
    && (!o.keepPunctuation ==> c !in PunctuationToRemove)
  }

  function Spaced(c: char, o: Options): char {
    var lowered := if !o.caseSensitive then LowerChar(c) else c;
    if o.neutralizeHyphens && lowered in Dashes then ' ' else lowered
  }

  function Removed(o: Options): set<char> {
    (if o.neutralizeApostrophes then Quotes else {}) + (if !o.keepPunctuation then PunctuationToRemove else {})
  }

  lemma {:induction false} RemoveTwice(s: string, a: set<char>, b: set<char>)
    ensures RemoveChars(RemoveChars(s, a), b) == RemoveChars(s, a + b)
    decreases |s|
  {
    if |s| > 0 {
      RemoveTwice(s[1..], a, b);
      RemoveAppend(if s[0] in a then "" else [s[0]], RemoveChars(s[1..], a), b);
    }
  }

  lemma {:induction false} RemoveAppend(x: string, y: string, cs: set<char>)
    ensures RemoveChars(x + y, cs) == RemoveChars(x, cs) + RemoveChars(y, cs)
    decreases |x|
  {
    if |x| == 0 {
      assert x + y == y;
    } else {
      assert (x + y)[0] == x[0] && (x + y)[1..] == x[1..] + y;
      RemoveAppend(x[1..], y, cs);
    }
  }

  lemma {:induction false} RemoveNone(s: string)
    ensures RemoveChars(s, {}) == s
    decreases |s|
  {
    if |s| > 0 {
      RemoveNone(s[1..]);
      assert s == [s[0]] + s[1..];
    }
  }

  /** The first two stages map each character through `Spaced`. */
  lemma SpacedStages(text: string, o: Options)
    ensures var lowered := if !o.caseSensitive then Lower(text) else text;
      var unhyphenated :=
        if o.neutralizeHyphens then ReplaceChar(ReplaceChar(ReplaceChar(lowered, '-', ' '), '—', ' '), '–', ' ')
        else lowered;
      unhyphenated == seq(|text|, i requires 0 <= i < |text| => Spaced(text[i], o))
  {
  }

  /** The last two stages remove the characters of `Removed(o)`. */
  lemma RemovalStages(m: string, o: Options)
    ensures var unquoted :=
        if o.neutralizeApostrophes then RemoveChar(RemoveChar(RemoveChar(RemoveChar(m, '\''), '\''), '"'), '"')
        else m;
      (if !o.keepPunctuation then RemoveChars(unquoted, PunctuationToRemove) else unquoted) == RemoveChars(m, Removed(o))
  {
    RemoveTwice(m, {'\''}, {'\''});
    RemoveTwice(m, {'\''}, {'"'});
    assert {'\''} + {'\''} == {'\''};
    RemoveTwice(RemoveChars(m, {'\''}), {'"'}, {'"'});
    assert {'"'} + {'"'} == {'"'};
    RemoveTwice(m, {'\''}, {'"'});
    assert {'\''} + {'"'} == Quotes;
    var unquoted := if o.neutralizeApostrophes then RemoveChars(m, Quotes) else m;
    RemoveTwice(m, Quotes, PunctuationToRemove);
    RemoveNone(m);
    assert {} + PunctuationToRemove == PunctuationToRemove;
    assert Quotes + {} == Quotes;
  }

  lemma {:induction false} ImagesAreRemoval(s: string, o: Options)
    ensures Images(s, o) == RemoveChars(seq(|s|, i requires 0 <= i < |s| => Spaced(s[i], o)), Removed(o))
    decreases |s|
  {
    var m := seq(|s|, i requires 0 <= i < |s| => Spaced(s[i], o));
    if |s| > 0 {
      ImagesAreRemoval(s[1..], o);
      assert m[1..] == seq(|s[1..]|, i requires 0 <= i < |s[1..]| => Spaced(s[1..][i], o));
    }
  }

  // ---------------------------------------------------------------------
  // Properties of transform_text

  /** The output has no leading or trailing whitespace, no two whitespace
      characters in a row and no whitespace but ' '; normalising it again
      changes nothing. */
  lemma TransformCanonical(text: string, o: Options)
    ensures var r := TransformText(text, o);
      && IsCanonical(r)
      && (|r| > 0 ==> !IsSpace(r[0]) && !IsSpace(r[|r| - 1]))
      && (forall i :: 0 <= i < |r| - 1 ==> !(IsSpace(r[i]) && IsSpace(r[i + 1])))
      && NormalizeSpaces(r) == r
  {
    NormalizeIsJoin(Images(text, o));
    NormalizeIdempotent(Images(text, o));
  }

  /** The non-whitespace characters of the output are exactly those of the
      per-character images of the input, in order. */
  lemma TransformContent(text: string, o: Options)
    ensures NonSpace(TransformText(text, o)) == NonSpace(Images(text, o))
  {
    NormalizeKeepsNonSpace(Images(text, o));
  }

  lemma CharImageAllowed(c: char, o: Options)
    ensures forall k :: 0 <= k < |CharImage(c, o)| ==> Allowed(CharImage(c, o)[k], o)
  {
    assert !IsUpper(' ') && ' ' !in Dashes;
    if !o.caseSensitive && !(o.neutralizeHyphens && LowerChar(c) in Dashes) {
      assert !IsUpper(LowerChar(c));
    }
  }

  lemma {:induction false} ImagesAllowed(s: string, o: Options)
    ensures forall k :: 0 <= k < |Images(s, o)| ==> Allowed(Images(s, o)[k], o)
    decreases |s|
  {
    if |s| > 0 {
      ImagesAllowed(s[1..], o);
      CharImageAllowed(s[0], o);
    }
  }

  /** Every output character is allowed by the options: no upper-case letter
      when folding case, no dash when dashes are neutralised, no quote when
      apostrophes are neutralised and no listed punctuation when it is removed. */
  lemma TransformAllowed(text: string, o: Options)
    ensures var r := TransformText(text, o);
      forall i :: 0 <= i < |r| ==> Allowed(r[i], o)
  {
    TransformCanonical(text, o);
    TransformContent(text, o);
    ImagesAllowed(text, o);
    CanonicalAllowed(TransformText(text, o), Images(text, o), o);
  }

  lemma SpaceAllowed(o: Options)
    ensures Allowed(' ', o)
  {
    assert !IsUpper(' ');
  }

  /** A normal-form text whose non-whitespace characters are those of `m` holds
      only characters `m` holds, or ' '. */
  lemma CanonicalAllowed(r: string, m: string, o: Options)
    requires IsCanonical(r) && NonSpace(r) == NonSpace(m)
    requires forall k :: 0 <= k < |m| ==> Allowed(m[k], o)
    ensures forall i :: 0 <= i < |r| ==> Allowed(r[i], o)
  {
    forall i | 0 <= i < |r| ensures Allowed(r[i], o) {
      var c := r[i];
      if !IsSpace(c) {
        NonSpaceMembers(r, c);
        NonSpaceMembers(m, c);
        var k :| 0 <= k < |m| && m[k] == c;
        assert Allowed(m[k], o);
      } else {
        assert c == ' ';
        SpaceAllowed(o);
      }
    }
  }

  lemma {:induction false} ImagesAppend(x: string, y: string, o: Options)
    ensures Images(x + y, o) == Images(x, o) + Images(y, o)
    decreases |x|
  {
    if |x| == 0 {
      assert x + y == y;
    } else {
      assert (x + y)[0] == x[0] && (x + y)[1..] == x[1..] + y;
      ImagesAppend(x[1..], y, o);
    }
  }

  /** With dashes neutralised, a dash acts as a space ("well-known word" gives
      "well known word"). */
  lemma DashIsSpace(x: string, d: char, y: string, o: Options)
    requires o.neutralizeHyphens && d in Dashes
    ensures TransformText(x + [d] + y, o) == TransformText(x + " " + y, o)
  {
    ImagesOfMiddle(x, d, y, o);
    ImagesOfMiddle(x, ' ', y, o);
    DashImage(d, o);
    SpaceImage(o);
  }

  lemma DashImage(d: char, o: Options)
    requires o.neutralizeHyphens && d in Dashes
    ensures CharImage(d, o) == " "
  {
    assert !IsUpper(d);
    assert ' ' !in Quotes && ' ' !in PunctuationToRemove;
  }

  lemma SpaceImage(o: Options)
    ensures CharImage(' ', o) == " "
  {
    assert !IsUpper(' ');
    assert ' ' !in Dashes && ' ' !in Quotes && ' ' !in PunctuationToRemove;
  }

  lemma ImagesOfMiddle(x: string, c: char, y: string, o: Options)
    ensures Images(x + [c] + y, o) == Images(x, o) + CharImage(c, o) + Images(y, o)
  {
    ImagesAppend(x + [c], y, o);
    ImagesAppend(x, [c], o);
    assert Images([c], o) == CharImage(c, o) + Images([], o);
  }

  /** Without neutralisation a hyphen is kept, even when punctuation is removed. */
  lemma HyphenKept(text: string, o: Options)
    requires !o.neutralizeHyphens && '-' in text
    ensures '-' in TransformText(text, o)
  {
    var k :| 0 <= k < |text| && text[k] == '-';
    assert text == text[..k] + ['-'] + text[k + 1..];
    ImagesOfMiddle(text[..k], '-', text[k + 1..], o);
    HyphenImage(o);
    HyphenInImages(Images(text[..k], o), Images(text[k + 1..], o));
    TransformContent(text, o);
    NonSpaceMembers(Images(text, o), '-');
    NonSpaceMembers(TransformText(text, o), '-');
  }

  lemma HyphenImage(o: Options)
    requires !o.neutralizeHyphens
    ensures CharImage('-', o) == "-"
  {
    assert !IsUpper('-');
    assert '-' !in Quotes && '-' !in PunctuationToRemove;
  }

  lemma HyphenInImages(x: string, y: string)
    ensures '-' in x + "-" + y
  {
    assert (x + "-" + y)[|x|] == '-';
  }

  /** Folding case lower-cases what the case-sensitive call returns: the other
      stages neither see nor produce upper-case letters. */
  lemma CaseFolding(text: string, o: Options)
    requires !o.caseSensitive
    ensures TransformText(text, o) == Lower(TransformText(text, o.(caseSensitive := true)))
  {
    var sensitive := o.(caseSensitive := true);
    ImagesFold(text, o);
    NormalizeLower(Images(text, sensitive));
  }

  lemma {:induction false} ImagesFold(s: string, o: Options)
    requires !o.caseSensitive
    ensures Images(s, o) == Lower(Images(s, o.(caseSensitive := true)))
    decreases |s|
  {
    var sensitive := o.(caseSensitive := true);
    if |s| > 0 {
      ImagesFold(s[1..], o);
      CharImageFolds(s[0], o);
      LowerAppend(CharImage(s[0], sensitive), Images(s[1..], sensitive));
    }
  }

  lemma CharImageFolds(c: char, o: Options)
    requires !o.caseSensitive
    ensures CharImage(c, o) == Lower(CharImage(c, o.(caseSensitive := true)))
  {
    if IsUpper(c) {
      NotMarks(c);
      NotMarks(LowerChar(c));
    }
  }

  /** Letters are no dashes, quotes or punctuation. */
  lemma NotMarks(c: char)
    requires 'a' <= c <= 'z' || 'A' <= c <= 'Z' || '\U{C0}' <= c <= '\U{FE}'
    ensures c !in Dashes && c !in Quotes && c !in PunctuationToRemove && c != ' '
  {
  }

  /** With every switch at its identity value the call only normalises
      whitespace, so a text already in normal form comes back unchanged
      ("Hello World" with case sensitivity). */
  lemma IdentityOptions(text: string)
    ensures TransformText(text, Options(true, true, false, false)) == NormalizeSpaces(text)
    ensures IsCanonical(text) ==> TransformText(text, Options(true, true, false, false)) == text
  {
    RemoveNone(text);
    if IsCanonical(text) {
      NormalizeIsJoin(text);
      CanonicalIsJoin(text);
    }
  }

  /** The ASCII and Latin-1 letters. */
  predicate IsLetter(c: char) {
    'a' <= c <= 'z' || 'A' <= c <= 'Z' || ('\U{C0}' <= c <= '\U{FE}' && c != '\U{D7}' && c != '\U{F7}')
  }

  /** With case sensitivity a letter passes every stage as it is. */
  lemma CaseSensitiveKeepsLetter(c: char, o: Options)
    requires o.caseSensitive && IsLetter(c)
    ensures CharImage(c, o) == [c]
  {
    NotMarks(c);
  }

  lemma {:induction false} ImagesKeepLetters(s: string, o: Options)
    requires o.caseSensitive
    requires forall i :: 0 <= i < |s| ==> IsLetter(s[i]) || s[i] == ' '
    ensures Images(s, o) == s
    decreases |s|
  {
    if |s| > 0 {
      ImagesKeepLetters(s[1..], o);
      if s[0] == ' ' {
        assert ' ' !in Dashes && ' ' !in Quotes && ' ' !in PunctuationToRemove;
      } else {
        CaseSensitiveKeepsLetter(s[0], o);
      }
      assert s == [s[0]] + s[1..];
    }
  }

  /** With case sensitivity, whatever the other switches, a text of letters
      single-spaced and trimmed comes back unchanged. */
  lemma CaseSensitiveKeepsText(text: string, o: Options)
    requires o.caseSensitive && IsCanonical(text)
    requires forall i :: 0 <= i < |text| ==> IsLetter(text[i]) || text[i] == ' '
    ensures TransformText(text, o) == text
  {
    ImagesKeepLetters(text, o);
    NormalizeIsJoin(text);
    CanonicalIsJoin(text);
  }

  /** "Hello World" with case sensitivity and the other switches at their
      defaults is returned unchanged. */
  lemma HelloWorldKept()
    ensures TransformText("Hello World", Options(true, false, false, false)) == "Hello World"
  {
    var t := "Hello World";
    assert forall i :: 0 <= i < |t| ==> IsLetter(t[i]) || t[i] == ' ';
    assert IsCanonical(t) by {
      forall i | 0 <= i < |t| && IsSpace(t[i]) ensures t[i] == ' ' && i + 1 < |t| && !IsSpace(t[i + 1]) {
        assert i == 5;
      }
    }
    CaseSensitiveKeepsText(t, Options(true, false, false, false));
  }

  /** Both texts go through the same transformation: equal per-character
      images give equal outputs, and empty texts stay empty. */
  lemma BasicTransformationsAgree(reference: string, hypothesis: string, o: Options)
    ensures var (r, h) := ApplyBasicTransformations(reference, hypothesis, o);
      && (Images(reference, o) == Images(hypothesis, o) ==> r == h)
      && (reference == "" ==> r == "")
      && (hypothesis == "" ==> h == "")
  {
  }
}
