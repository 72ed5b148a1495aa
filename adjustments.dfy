/** Lexical adjustments: whole-word find-and-replace rules applied in three
    stages (reference replacements, equivalences, clean-up), and the checks
    that loading an adjustments object performs. */
module Adjustments {
  import opened Results
  import opened Text

  // ---------------------------------------------------------------------
  // Whole-word literal substitution: `re.sub(r'\b' + re.escape(term) + r'\b', repl, text)`

  /** `\w`: letters, digits and '_' (ASCII and Latin-1). */
  predicate IsWordChar(c: char) {
    || 'a' <= c <= 'z' || 'A' <= c <= 'Z' || '0' <= c <= '9' || c == '_'
    || c == '\U{AA}' || c == '\U{B2}' || c == '\U{B3}' || c == '\U{B5}' || c == '\U{B9}' || c == '\U{BA}'
    || ('\U{BC}' <= c <= '\U{BE}') || ('\U{C0}' <= c <= '\U{FF}' && c != '\U{D7}' && c != '\U{F7}')
  }

  /** `\b` at position `p` of `t`: a word character on exactly one side. */
  predicate Boundary(t: string, p: nat)
    requires p <= |t|
  {
    (p > 0 && IsWordChar(t[p - 1])) != (p < |t| && IsWordChar(t[p]))
  }

  /** Character-wise equality, up to case when `ignoreCase` (the `(?i)` flag). */
  predicate SameText(a: string, b: string, ignoreCase: bool) {
    |a| == |b| && forall i :: 0 <= i < |a| ==> if ignoreCase then LowerChar(a[i]) == LowerChar(b[i]) else a[i] == b[i]
  }

  /** The pattern matches at `p`: boundary, the term, boundary. */
  predicate MatchAt(t: string, p: nat, term: string, ignoreCase: bool)
    requires p <= |t|
  {
    p + |term| <= |t| && Boundary(t, p) && SameText(t[p..p + |term|], term, ignoreCase) && Boundary(t, p + |term|)
  }

  /** `re.sub` from position `p` on: scanning left to right, each match is
      replaced and scanning resumes after it; an empty match also copies the
      character after it. */
  function SubstituteFrom(t: string, p: nat, term: string, repl: string, ignoreCase: bool): string
    requires p <= |t|
    decreases |t| - p
  {
    if MatchAt(t, p, term, ignoreCase) then
      if |term| > 0 then repl + SubstituteFrom(t, p + |term|, term, repl, ignoreCase)
      else if p < |t| then repl + [t[p]] + SubstituteFrom(t, p + 1, term, repl, ignoreCase)
      else repl
    else if p < |t| then [t[p]] + SubstituteFrom(t, p + 1, term, repl, ignoreCase)
    else ""
  }

  function Substitute(t: string, term: string, repl: string, ignoreCase: bool): string {
    SubstituteFrom(t, 0, term, repl, ignoreCase)
  }

  // ---------------------------------------------------------------------
  // The three stages

  /** The adjustments `apply_adjustments` reads; an absent key and an empty
      value behave the same, so both are an empty sequence here. Dictionaries
      are sequences of entries in their JSON order. */
  datatype Adjustments = Adjustments(
    replacements: seq<(string, string)>,
    equivalences: seq<(string, seq<string>)>,
    cleanUp: seq<string>,
    caseSensitive: bool)

  const NoAdjustments := Adjustments([], [], [], false)

  /** `apply_reference_replacements`: each (search, replace) entry in order. */
  function ReplaceAll(text: string, replacements: seq<(string, string)>, caseSensitive: bool): string
    decreases |replacements|
  {
    if |replacements| == 0 then text
    else ReplaceAll(Substitute(text, replacements[0].0, replacements[0].1, !caseSensitive),
                    replacements[1..], caseSensitive)
  }

  /** Rewrites each variant that differs from `canonical` to it, in order. */
  function RewriteVariants(text: string, variants: seq<string>, canonical: string, caseSensitive: bool): string
    decreases |variants|
  {
    if |variants| == 0 then text
    else
      var next := if variants[0] == canonical then text else Substitute(text, variants[0], canonical, !caseSensitive);
      RewriteVariants(next, variants[1..], canonical, caseSensitive)
  }

  /** `apply_equivalences`: for each entry, `variants[1:]` become `variants[0]`;
      an empty list is skipped and the entry's name is not used. */
  function Equivalences(text: string, equivalences: seq<(string, seq<string>)>, caseSensitive: bool): string
    decreases |equivalences|
  {
    if |equivalences| == 0 then text
    else
      var variants := equivalences[0].1;
      var next := if |variants| == 0 then text else RewriteVariants(text, variants[1..], variants[0], caseSensitive);
      Equivalences(next, equivalences[1..], caseSensitive)
  }

  /** Removes each listed item in order. */
  function RemoveItems(text: string, items: seq<string>, caseSensitive: bool): string
    decreases |items|
  {
    if |items| == 0 then text
    else RemoveItems(Substitute(text, items[0], "", !caseSensitive), items[1..], caseSensitive)
  }

  /** `apply_clean_up`: removal, then whitespace normalisation. */
  function CleanUp(text: string, items: seq<string>, caseSensitive: bool): string {
    NormalizeSpaces(RemoveItems(text, items, caseSensitive))
  }

  /** `apply_adjustments`: replacements on the reference only, then equivalences
      and clean-up on both texts, each stage only when its value is non-empty.
      Without equivalences and clean-up the hypothesis is returned as it is;
      after a non-empty clean-up both texts are in normal whitespace form. */
  function ApplyAdjustments(reference: string, hypothesis: string, adj: Adjustments): (r: (string, string))
    ensures |adj.equivalences| == 0 && |adj.cleanUp| == 0 ==> r.1 == hypothesis
    ensures |adj.cleanUp| > 0 ==> IsCanonical(r.0) && IsCanonical(r.1)
  {
    var cs := adj.caseSensitive;
    var r1 := if |adj.replacements| > 0 then ReplaceAll(reference, adj.replacements, cs) else reference;
    var (r2, h2) :=
      if |adj.equivalences| > 0 then (Equivalences(r1, adj.equivalences, cs), Equivalences(hypothesis, adj.equivalences, cs))
      else (r1, hypothesis);
    NormalizeIsJoin(RemoveItems(r2, adj.cleanUp, cs));
    NormalizeIsJoin(RemoveItems(h2, adj.cleanUp, cs));
    if |adj.cleanUp| > 0 then (CleanUp(r2, adj.cleanUp, cs), CleanUp(h2, adj.cleanUp, cs)) else (r2, h2)
  }

  // ---------------------------------------------------------------------
  // The loops

  method ApplyReferenceReplacements(text: string, replacements: seq<(string, string)>, caseSensitive: bool)
    returns (result: string)
    ensures result == ReplaceAll(text, replacements, caseSensitive)
  {
    result := text;
    var k := 0;
    while k < |replacements|
      invariant 0 <= k <= |replacements|
      invariant ReplaceAll(result, replacements[k..], caseSensitive) == ReplaceAll(text, replacements, caseSensitive)
    {
      var (search, replace) := replacements[k];
      assert replacements[k..][1..] == replacements[k + 1..];
      result := Substitute(result, search, replace, !caseSensitive);
      k := k + 1;
    }
  }

  method ApplyEquivalences(text: string, equivalences: seq<(string, seq<string>)>, caseSensitive: bool)
    returns (result: string)
    ensures result == Equivalences(text, equivalences, caseSensitive)
  {
    result := text;
    var k := 0;
    while k < |equivalences|
      invariant 0 <= k <= |equivalences|
      invariant Equivalences(result, equivalences[k..], caseSensitive) == Equivalences(text, equivalences, caseSensitive)
    {
      var variants := equivalences[k].1;
      assert equivalences[k..][1..] == equivalences[k + 1..];
      if |variants| > 0 {
        var canonical := variants[0];
        var rest := variants[1..];
        var before := result;
        var j := 0;
        while j < |rest|
          invariant 0 <= j <= |rest|
          invariant RewriteVariants(result, rest[j..], canonical, caseSensitive)
                    == RewriteVariants(before, rest, canonical, caseSensitive)
        {
          assert rest[j..][1..] == rest[j + 1..];
          if rest[j] != canonical {
            result := Substitute(result, rest[j], canonical, !caseSensitive);
          }
          j := j + 1;
        }
      }
      k := k + 1;
    }
  }

  method ApplyCleanUp(text: string, items: seq<string>, caseSensitive: bool) returns (result: string)
    ensures result == CleanUp(text, items, caseSensitive)
  {
    result := text;
    var k := 0;
    while k < |items|
      invariant 0 <= k <= |items|
      invariant RemoveItems(result, items[k..], caseSensitive) == RemoveItems(text, items, caseSensitive)
    {
      assert items[k..][1..] == items[k + 1..];
      result := Substitute(result, items[k], "", !caseSensitive);
      k := k + 1;
    }
    result := NormalizeSpaces(result);
  }

  // ---------------------------------------------------------------------
  // Properties of substitution

  lemma {:induction false} SubstituteSelfFrom(t: string, p: nat, term: string)
    requires p <= |t|
    ensures SubstituteFrom(t, p, term, term, false) == t[p..]
    decreases |t| - p
  {
    if MatchAt(t, p, term, false) {
      var q := p + |term|;
      assert t[p..q] == term by {
        assert SameText(t[p..q], term, false);
      }
      if |term| > 0 {
        SubstituteSelfFrom(t, q, term);
        assert SubstituteFrom(t, p, term, term, false) == term + t[q..];
        assert t[p..] == t[p..q] + t[q..];
      } else if p < |t| {
        SubstituteSelfFrom(t, p + 1, term);
        assert SubstituteFrom(t, p, term, term, false) == term + [t[p]] + t[p + 1..];
        assert term + [t[p]] == [t[p]];
        assert t[p..] == [t[p]] + t[p + 1..];
      }
    } else if p < |t| {
      SubstituteSelfFrom(t, p + 1, term);
      assert t[p..] == [t[p]] + t[p + 1..];
    }
  }

  /** Case-sensitively replacing a term by itself changes nothing. */
  lemma SubstituteSelf(t: string, term: string)
    ensures Substitute(t, term, term, false) == t
  {
    SubstituteSelfFrom(t, 0, term);
  }

  lemma {:induction false} NoMatchFrom(t: string, p: nat, term: string, repl: string, ignoreCase: bool)
    requires p <= |t|
    requires forall q :: p <= q <= |t| ==> !MatchAt(t, q, term, ignoreCase)
    ensures SubstituteFrom(t, p, term, repl, ignoreCase) == t[p..]
    decreases |t| - p
  {
    if p < |t| {
      NoMatchFrom(t, p + 1, term, repl, ignoreCase);
      assert t[p..] == [t[p]] + t[p + 1..];
    }
  }

  /** Where the pattern matches nowhere the text is unchanged ("tehater" under
      "teh", "Teh cat" under a case-sensitive "teh"). */
  lemma NoMatchUnchanged(t: string, term: string, repl: string, ignoreCase: bool)
    requires forall q :: 0 <= q <= |t| ==> !MatchAt(t, q, term, ignoreCase)
    ensures Substitute(t, term, repl, ignoreCase) == t
  {
    NoMatchFrom(t, 0, term, repl, ignoreCase);
  }

  /** A term that is a word matches exactly where it stands as a whole word:
      the characters around it are not word characters ("teh" does not match in
      "tehater"). */
  lemma WholeWordMatch(t: string, p: nat, term: string, ignoreCase: bool)
    requires p <= |t|
    requires IsWordTerm(term)
    ensures MatchAt(t, p, term, ignoreCase) <==>
      && p + |term| <= |t| && SameText(t[p..p + |term|], term, ignoreCase)
      && (p == 0 || !IsWordChar(t[p - 1]))
      && (p + |term| == |t| || !IsWordChar(t[p + |term|]))
  {
    if p + |term| <= |t| && SameText(t[p..p + |term|], term, ignoreCase) {
      var last := p + |term| - 1;
      assert t[p..p + |term|][0] == t[p] && t[p..p + |term|][|term| - 1] == t[last];
      CaseKeepsWordChar(t[p], term[0]);
      CaseKeepsWordChar(t[last], term[|term| - 1]);
    }
  }

  /** A non-empty term of word characters. */
  predicate IsWordTerm(term: string) {
    |term| > 0 && forall i :: 0 <= i < |term| ==> IsWordChar(term[i])
  }

  lemma CaseKeepsWordChar(a: char, b: char)
    requires LowerChar(a) == LowerChar(b)
    ensures IsWordChar(a) <==> IsWordChar(b)
  {
  }

  /** An exact match is also a match when case is ignored. */
  lemma ExactMatchIgnoringCase(t: string, p: nat, term: string)
    requires p <= |t| && MatchAt(t, p, term, false)
    ensures MatchAt(t, p, term, true)
  {
  }

  /** Scanning from `s` copies the text up to the first match at `p`, puts the
      replacement in its place and resumes after it. */
  lemma {:induction false} FirstMatchFrom(t: string, s: nat, p: nat, term: string, repl: string, ignoreCase: bool)
    requires s <= p <= |t| && |term| > 0 && MatchAt(t, p, term, ignoreCase)
    requires forall q :: s <= q < p ==> !MatchAt(t, q, term, ignoreCase)
    ensures SubstituteFrom(t, s, term, repl, ignoreCase)
         == t[s..p] + repl + SubstituteFrom(t, p + |term|, term, repl, ignoreCase)
    decreases p - s
  {
    if s == p {
      assert t[s..p] == [];
    } else {
      assert !MatchAt(t, s, term, ignoreCase);
      var rest := SubstituteFrom(t, p + |term|, term, repl, ignoreCase);
      calc {
        SubstituteFrom(t, s, term, repl, ignoreCase);
        [t[s]] + SubstituteFrom(t, s + 1, term, repl, ignoreCase);
        { FirstMatchFrom(t, s + 1, p, term, repl, ignoreCase); }
        [t[s]] + (t[s + 1..p] + repl + rest);
        { assert t[s..p] == [t[s]] + t[s + 1..p]; }
        t[s..p] + repl + rest;
      }
    }
  }

  /** The first whole-word occurrence of the term is replaced: the text before
      it is kept, the replacement takes its place, and substitution goes on
      after it ("teh cat" under "teh" gives "the cat"). */
  lemma FirstMatchReplaced(t: string, p: nat, term: string, repl: string, ignoreCase: bool)
    requires p <= |t| && |term| > 0 && MatchAt(t, p, term, ignoreCase)
    requires forall q :: 0 <= q < p ==> !MatchAt(t, q, term, ignoreCase)
    ensures Substitute(t, term, repl, ignoreCase) == t[..p] + repl + SubstituteFrom(t, p + |term|, term, repl, ignoreCase)
  {
    FirstMatchFrom(t, 0, p, term, repl, ignoreCase);
  }

  /** A text with exactly one whole-word occurrence, at `p`, has just that
      occurrence replaced. */
  lemma OnlyMatchReplaced(t: string, p: nat, term: string, repl: string, ignoreCase: bool)
    requires p <= |t| && |term| > 0 && MatchAt(t, p, term, ignoreCase)
    requires forall q :: 0 <= q <= |t| && q != p ==> !MatchAt(t, q, term, ignoreCase)
    ensures Substitute(t, term, repl, ignoreCase) == t[..p] + repl + t[p + |term|..]
  {
    FirstMatchReplaced(t, p, term, repl, ignoreCase);
    NoMatchFrom(t, p + |term|, term, repl, ignoreCase);
  }

  /** The replacement examples: "teh" becomes "the" as a whole word, up to case
      unless matching is case-sensitive, and not inside "tehater". */
  lemma ReplacementExamples()
    ensures Substitute("teh cat", "teh", "the", true) == "the cat"
    ensures Substitute("Teh cat", "teh", "the", false) == "Teh cat"
    ensures Substitute("Teh cat", "teh", "the", true) == "the cat"
    ensures Substitute("tehater", "teh", "the", true) == "tehater"
  {
    LeadingTehReplaced("teh cat");
    LeadingTehReplaced("Teh cat");
    CaseSensitiveTehKept();
    TehInsideWordKept();
  }

  lemma LeadingTehReplaced(t: string)
    requires t == "teh cat" || t == "Teh cat"
    ensures Substitute(t, "teh", "the", true) == "the cat"
  {
    LeadingTehMatches(t);
    OnlyMatchReplaced(t, 0, "teh", "the", true);
    assert t[3..] == " cat";
  }

  /** "teh", up to case, matches at the start of the text and nowhere else. */
  lemma LeadingTehMatches(t: string)
    requires t == "teh cat" || t == "Teh cat"
    ensures MatchAt(t, 0, "teh", true)
    ensures forall q :: 0 <= q <= |t| && q != 0 ==> !MatchAt(t, q, "teh", true)
  {
    assert SameText(t[0..3], "teh", true) by {
      assert t[0..3] == [t[0], 'e', 'h'];
    }
    forall q | 0 <= q <= |t| && q != 0 ensures !MatchAt(t, q, "teh", true) {
      NoTehAfterStart(t, q);
    }
  }

  lemma NoTehAfterStart(t: string, q: nat)
    requires |t| == 7 && IsWordChar(t[0]) && t[1..] == "eh cat" && 0 < q <= |t|
    ensures !MatchAt(t, q, "teh", true)
  {
    if q < 3 {
      assert IsWordChar(t[q - 1]) && IsWordChar(t[q]);
    } else if q == 3 {
      assert t[3] == ' ' && t[3..6][0] == t[3];
    } else if q == 4 {
      assert t[4] == 'c' && t[4..7][0] == t[4];
    }
  }

  lemma CaseSensitiveTehKept()
    ensures Substitute("Teh cat", "teh", "the", false) == "Teh cat"
  {
    var t, term := "Teh cat", "teh";
    forall q | 0 <= q <= |t| ensures !MatchAt(t, q, term, false) {
      if q == 0 {
        assert t[0..3][0] == 'T';
      } else if q == 3 {
        assert t[3..6][0] == ' ';
      } else if q == 4 {
        assert t[4..7][0] == 'c';
      } else if q < 3 {
        assert IsWordChar(t[q - 1]) && IsWordChar(t[q]);
      }
    }
    NoMatchUnchanged(t, term, "the", false);
  }

  lemma TehInsideWordKept()
    ensures Substitute("tehater", "teh", "the", true) == "tehater"
  {
    var t, term := "tehater", "teh";
    forall q | 0 <= q <= |t| ensures !MatchAt(t, q, term, true) {
      if q == 0 {
        assert IsWordChar(t[2]) && IsWordChar(t[3]);
      } else if q < |t| {
        assert IsWordChar(t[q - 1]) && IsWordChar(t[q]);
      }
    }
    NoMatchUnchanged(t, term, "the", true);
  }

  // ---------------------------------------------------------------------
  // Properties of the stages

  /** An empty adjustments object leaves both texts as they are. */
  lemma EmptyAdjustments(reference: string, hypothesis: string, caseSensitive: bool)
    ensures ApplyAdjustments(reference, hypothesis, Adjustments([], [], [], caseSensitive)) == (reference, hypothesis)
  {
  }

  /** The reference replacements never touch the hypothesis, nor does the
      reference: the hypothesis result depends only on the hypothesis, the
      equivalences, the clean-up list and the case flag. */
  lemma HypothesisIgnoresReplacements(reference: string, hypothesis: string, adj: Adjustments,
                                      otherReference: string, otherReplacements: seq<(string, string)>)
    ensures ApplyAdjustments(reference, hypothesis, adj).1
         == ApplyAdjustments(otherReference, hypothesis, adj.(replacements := otherReplacements)).1
  {
  }

  /** With replacements only, the hypothesis is returned unchanged ("teh cat"
      becomes "the cat" in the reference and stays "teh cat" in the hypothesis). */
  lemma ReplacementsOnlyReference(reference: string, hypothesis: string, replacements: seq<(string, string)>,
                                  caseSensitive: bool)
    requires |replacements| > 0
    ensures ApplyAdjustments(reference, hypothesis, Adjustments(replacements, [], [], caseSensitive))
         == (ReplaceAll(reference, replacements, caseSensitive), hypothesis)
  {
  }

  /** The stages compose: applying the replacements alone, then the
      equivalences alone, then the clean-up alone, gives the combined result. */
  lemma StagesInOrder(reference: string, hypothesis: string, adj: Adjustments)
    ensures var cs := adj.caseSensitive;
      var (r1, h1) := ApplyAdjustments(reference, hypothesis, Adjustments(adj.replacements, [], [], cs));
      var (r2, h2) := ApplyAdjustments(r1, h1, Adjustments([], adj.equivalences, [], cs));
      ApplyAdjustments(r2, h2, Adjustments([], [], adj.cleanUp, cs)) == ApplyAdjustments(reference, hypothesis, adj)
  {
  }

  /** Clean-up with nothing to remove only normalises whitespace, and cleaning an
      already clean text again changes nothing. */
  lemma CleanUpNothing(text: string, caseSensitive: bool)
    ensures CleanUp(text, [], caseSensitive) == NormalizeSpaces(text)
    ensures NormalizeSpaces(CleanUp(text, [], caseSensitive)) == CleanUp(text, [], caseSensitive)
  {
    NormalizeIdempotent(text);
  }

  /** An equivalence entry rewrites its second and later variants to its first:
      one variant `v` of canonical `c` is a substitution of `v` by `c` ("wanna go"
      becomes "want to go"), unless `v` is `c` itself. */
  lemma OneEquivalence(text: string, name: string, c: string, v: string, caseSensitive: bool)
    ensures Equivalences(text, [(name, [c, v])], caseSensitive)
         == if v == c then text else Substitute(text, v, c, !caseSensitive)
  {
    var eqs := [(name, [c, v])];
    assert eqs[0].1 == [c, v] && eqs[1..] == [];
    assert [c, v][1..] == [v] && [v][1..] == [];
    var next := if v == c then text else Substitute(text, v, c, !caseSensitive);
    assert RewriteVariants(text, [v], c, caseSensitive) == RewriteVariants(next, [], c, caseSensitive);
    assert Equivalences(text, eqs, caseSensitive) == Equivalences(RewriteVariants(text, [v], c, caseSensitive), [], caseSensitive);
  }

  /** Entries with no variants, or only the canonical form, change nothing; and
      the names of the entries play no part. */
  lemma {:induction false} EquivalenceNamesIgnored(text: string, eqs: seq<(string, seq<string>)>,
                                                   names: seq<string>, caseSensitive: bool)
    requires |names| == |eqs|
    ensures Equivalences(text, eqs, caseSensitive)
         == Equivalences(text, seq(|eqs|, k requires 0 <= k < |eqs| => (names[k], eqs[k].1)), caseSensitive)
    decreases |eqs|
  {
    if |eqs| > 0 {
      var renamed := seq(|eqs|, k requires 0 <= k < |eqs| => (names[k], eqs[k].1));
      var variants := eqs[0].1;
      var next := if |variants| == 0 then text else RewriteVariants(text, variants[1..], variants[0], caseSensitive);
      EquivalenceNamesIgnored(next, eqs[1..], names[1..], caseSensitive);
      assert renamed[1..] == seq(|eqs[1..]|, k requires 0 <= k < |eqs[1..]| => (names[1..][k], eqs[1..][k].1));
    }
  }

  /** The equivalence example: "wanna" is rewritten to "want to". */
  lemma EquivalenceExample()
    ensures Equivalences("wanna go", [("want_to", ["want to", "wanna"])], false) == "want to go"
  {
    var t := "wanna go";
    OneEquivalence(t, "want_to", "want to", "wanna", false);
    assert MatchAt(t, 0, "wanna", true) by {
      assert t[0..5] == "wanna";
    }
    forall q | 0 < q <= |t| ensures !MatchAt(t, q, "wanna", true) {
      if q < 5 {
        NoMatchInsideWord(t, q, "wanna", true);
      } else if q == 5 {
        NoMatchFirstDiffers(t, q, "wanna");
      }
    }
    OnlyMatchReplaced(t, 0, "wanna", "want to", true);
    assert t[5..] == " go";
  }

  /** No match where the character before and the one at `p` are both word characters. */
  lemma NoMatchInsideWord(t: string, p: nat, term: string, ignoreCase: bool)
    requires 0 < p < |t| && IsWordChar(t[p - 1]) && IsWordChar(t[p])
    ensures !MatchAt(t, p, term, ignoreCase)
  {
  }

  /** No match, up to case, where the first character differs from the term's. */
  lemma NoMatchFirstDiffers(t: string, p: nat, term: string)
    requires p < |t| && |term| > 0 && LowerChar(t[p]) != LowerChar(term[0])
    ensures !MatchAt(t, p, term, true)
  {
    if p + |term| <= |t| {
      assert t[p..p + |term|][0] == t[p];
    }
  }

  /** The clean-up example: the fillers go and the spaces collapse. */
  lemma CleanUpExample()
    ensures CleanUp("uh  hello  ah", ["uh", "ah"], false) == "hello"
  {
    var t := "uh  hello  ah";
    var t1 := "  hello  ah";
    var t2 := "  hello  ";
    assert RemoveItems(t, ["uh", "ah"], false) == RemoveItems(Substitute(t, "uh", "", true), ["ah"], false);
    FillerUhRemoved();
    assert RemoveItems(t1, ["ah"], false) == RemoveItems(Substitute(t1, "ah", "", true), [], false);
    FillerAhRemoved();
    PaddedHelloNormalized();
  }

  lemma FillerUhRemoved()
    ensures Substitute("uh  hello  ah", "uh", "", true) == "  hello  ah"
  {
    var t := "uh  hello  ah";
    assert MatchAt(t, 0, "uh", true) by {
      assert t[0..2] == "uh";
    }
    forall q | 0 < q <= |t| ensures !MatchAt(t, q, "uh", true) {
      if q == 1 || 5 <= q <= 8 || q == 12 {
        NoMatchInsideWord(t, q, "uh", true);
      } else if q < 12 {
        NoMatchFirstDiffers(t, q, "uh");
      }
    }
    OnlyMatchReplaced(t, 0, "uh", "", true);
    assert t[2..] == "  hello  ah";
  }

  lemma FillerAhRemoved()
    ensures Substitute("  hello  ah", "ah", "", true) == "  hello  "
  {
    var t := "  hello  ah";
    assert MatchAt(t, 9, "ah", true) by {
      assert t[9..11] == "ah";
    }
    forall q | 0 <= q <= |t| && q != 9 ensures !MatchAt(t, q, "ah", true) {
      if 3 <= q <= 6 || q == 10 {
        NoMatchInsideWord(t, q, "ah", true);
      } else if q < 9 {
        NoMatchFirstDiffers(t, q, "ah");
      }
    }
    OnlyMatchReplaced(t, 9, "ah", "", true);
    assert t[..9] == "  hello  ";
  }

  lemma PaddedHelloNormalized()
    ensures NormalizeSpaces("  hello  ") == "hello"
  {
    PaddedHelloCollapsed();
    assert StripLeft(" hello ") == "hello " by {
      assert " hello "[1..] == "hello ";
    }
    assert StripRight("hello ") == "hello" by {
      assert "hello "[..5] == "hello";
    }
  }

  lemma PaddedHelloCollapsed()
    ensures CollapseSpaces("  hello  ") == " hello "
  {
    HelloCollapsed();
    assert LeadingSpaces("  hello  ") == 2 by {
      assert "  hello  "[1..] == " hello  " && " hello  "[1..] == "hello  ";
    }
    assert "  hello  "[2..] == "hello  ";
  }

  lemma HelloCollapsed()
    ensures CollapseSpaces("hello  ") == "hello "
  {
    var s := "hello  ";
    assert s == "hello" + "  ";
    WordLengthAll("hello", "  ");
    CollapseWord(s);
    assert s[..5] == "hello" && s[5..] == "  ";
    assert LeadingSpaces("  ") == 2 by {
      assert "  "[1..] == " " && " "[1..] == "";
    }
    assert "  "[2..] == "";
  }

  lemma TrivialEquivalence(text: string, name: string, variants: seq<string>, caseSensitive: bool)
    requires |variants| <= 1
    ensures Equivalences(text, [(name, variants)], caseSensitive) == text
  {
    assert [(name, variants)][1..] == [];
    if |variants| == 1 {
      assert variants[1..] == [];
    }
  }

  // ---------------------------------------------------------------------
  // Loading: the key and type checks over the parsed JSON value

  /** A parsed JSON value; an object holds its members in document order. */
  datatype Json =
    | JNull
    | JBool(b: bool)
    | JNumber(n: real)
    | JString(s: string)
    | JArray(items: seq<Json>)
    | JObject(members: seq<(string, Json)>)

  const ValidKeys: set<string> := {"reference_replacements", "equivalences", "clean_up", "case_sensitive"}

  /** The first member key that is not a valid key, in document order. */
  function FirstUnknownKey(members: seq<(string, Json)>): (r: Option<string>)
    ensures r.None? <==> forall k :: 0 <= k < |members| ==> members[k].0 in ValidKeys
    ensures r.Some? ==> r.value !in ValidKeys && exists k :: 0 <= k < |members| && members[k].0 == r.value
  {
    if |members| == 0 then None
    else if members[0].0 !in ValidKeys then Some(members[0].0)
    else
      var r := FirstUnknownKey(members[1..]);
      assert r.Some? ==> 0 + 1 < |members| + 1;
      assert forall k :: 1 <= k < |members| ==> members[k].0 == members[1..][k - 1].0;
      r
  }

  function Lookup(members: seq<(string, Json)>, key: string): Option<Json> {
    if |members| == 0 then None
    else if members[0].0 == key then Some(members[0].1)
    else Lookup(members[1..], key)
  }

  /** The member `key` is absent or satisfies `ok`. */
  predicate AbsentOr(members: seq<(string, Json)>, key: string, kind: string) {
    Lookup(members, key).None? || HasKind(Lookup(members, key).value, kind)
  }

  predicate HasKind(v: Json, kind: string) {
    if kind == "object" then v.JObject? else if kind == "list" then v.JArray? else v.JBool?
  }

  /** `load_adjustments` after parsing: unknown keys first, then the type of
      each known key; the value is returned as it is. Loading accepts exactly
      the objects whose keys are all valid and whose known keys have the right
      kind. */
  function LoadAdjustments(data: Json): (r: Result<Json>)
    ensures r.Success? <==>
      && data.JObject?
      && (forall k :: 0 <= k < |data.members| ==> data.members[k].0 in ValidKeys)
      && AbsentOr(data.members, "reference_replacements", "object")
      && AbsentOr(data.members, "equivalences", "object")
      && AbsentOr(data.members, "clean_up", "list")
      && AbsentOr(data.members, "case_sensitive", "bool")
    ensures r.Success? ==> r.value == data
  {
    if !data.JObject? then Failure("adjustments JSON must be an object")
    else
      var members := data.members;
      var unknown := FirstUnknownKey(members);
      if unknown.Some? then Failure("Unknown key in adjustments JSON: " + unknown.value)
      else if !AbsentOr(members, "reference_replacements", "object") then
        Failure("'reference_replacements' must be an object/dictionary")
      else if !AbsentOr(members, "equivalences", "object") then Failure("'equivalences' must be an object/dictionary")
      else if !AbsentOr(members, "clean_up", "list") then Failure("'clean_up' must be a list")
      else if !AbsentOr(members, "case_sensitive", "bool") then Failure("'case_sensitive' must be a boolean")
      else Success(data)
  }

  /** An unknown key is reported before any type error, and it is a key of the
      object. */
  lemma UnknownKeyFirst(data: Json)
    requires data.JObject? && exists k :: 0 <= k < |data.members| && data.members[k].0 !in ValidKeys
    ensures LoadAdjustments(data).Failure?
    ensures var key := FirstUnknownKey(data.members).value;
      && LoadAdjustments(data).error == "Unknown key in adjustments JSON: " + key
      && key !in ValidKeys
  {
  }

  /** The strings of a list, or None when an element is not a string. */
  function Strings(items: seq<Json>): (r: Option<seq<string>>)
    ensures r.Some? <==> forall i :: 0 <= i < |items| ==> items[i].JString?
    ensures r.Some? ==> |r.value| == |items| && forall i :: 0 <= i < |items| ==> r.value[i] == items[i].s
  {
    if |items| == 0 then Some([])
    else if !items[0].JString? then None
    else match Strings(items[1..]) {
      case None =>
        assert exists i :: 1 <= i < |items| && !items[i].JString? by {
          var j :| 0 <= j < |items[1..]| && !items[1..][j].JString?;
          assert items[j + 1] == items[1..][j];
        }
        None
      case Some(rest) => Some([items[0].s] + rest)
    }
  }

  /** The (search, replace) entries of a dictionary whose values are all strings. */
  function StringEntries(members: seq<(string, Json)>): (r: Option<seq<(string, string)>>)
    ensures r.Some? <==> forall k :: 0 <= k < |members| ==> members[k].1.JString?
    ensures r.Some? ==> |r.value| == |members| && forall k :: 0 <= k < |members| ==> r.value[k] == (members[k].0, members[k].1.s)
  {
    if |members| == 0 then Some([])
    else if !members[0].1.JString? then None
    else match StringEntries(members[1..]) {
      case None =>
        assert exists k :: 1 <= k < |members| && !members[k].1.JString? by {
          var j :| 0 <= j < |members[1..]| && !members[1..][j].1.JString?;
          assert members[j + 1] == members[1..][j];
        }
        None
      case Some(rest) => Some([(members[0].0, members[0].1.s)] + rest)
    }
  }

  /** Python truth value: null, false, zero, the empty string, list and object are false. */
  predicate Falsy(v: Json) {
    v == JNull || v == JBool(false) || (v.JNumber? && v.n == 0.0) || v == JString("") || v == JArray([]) || v == JObject([])
  }

  /** A string as the list of its one-character strings, as iterating over it yields them. */
  function Chars(s: string): (r: seq<string>)
    ensures |r| == |s| && forall i :: 0 <= i < |s| ==> r[i] == [s[i]]
  {
    if |s| == 0 then [] else [[s[0]]] + Chars(s[1..])
  }

  /** How `apply_equivalences` reads one entry's value as a group of variants:
      a false value is skipped like an empty list, a string is walked character
      by character, a list must hold strings; any other value makes `len` or
      `variants[0]` raise. */
  function GroupOf(v: Json): (r: Option<seq<string>>)
    ensures Falsy(v) ==> r == Some([])
    ensures v.JString? ==> r.Some? && |r.value| == |v.s| && forall i :: 0 <= i < |v.s| ==> r.value[i] == [v.s[i]]
    ensures v.JArray? ==> r == Strings(v.items)
    ensures r.None? <==> !Falsy(v) && (v.JBool? || v.JNumber? || v.JObject? || (v.JArray? && Strings(v.items).None?))
  {
    if Falsy(v) then Some([])
    else match v {
      case JString(s) => Some(Chars(s))
      case JArray(items) => Strings(items)
      case _ => None
    }
  }

  /** The (name, group) entries of the equivalences dictionary. */
  function ListEntries(members: seq<(string, Json)>): (r: Option<seq<(string, seq<string>)>>)
    ensures r.Some? <==> forall k :: 0 <= k < |members| ==> GroupOf(members[k].1).Some?
    ensures r.Some? ==> |r.value| == |members| && forall k :: 0 <= k < |members| ==> r.value[k] == (members[k].0, GroupOf(members[k].1).value)
  {
    if |members| == 0 then Some([])
    else match (GroupOf(members[0].1), ListEntries(members[1..])) {
      case (Some(vs), Some(rest)) => Some([(members[0].0, vs)] + rest)
      case (None, _) => None
      case (_, None) =>
        assert exists k :: 1 <= k < |members| && GroupOf(members[k].1).None? by {
          var j :| 0 <= j < |members[1..]| && GroupOf(members[1..][j].1).None?;
          assert members[j + 1] == members[1..][j];
        }
        None
    }
  }

  /** The adjustments a loaded object describes. Replacement values and clean-up
      items must be strings, which `re.sub` and `re.escape` demand, and each
      equivalence value must be a group `GroupOf` accepts. */
  function AdjustmentsOf(data: Json): (r: Result<Adjustments>)
    requires LoadAdjustments(data).Success?
    ensures r.Success? ==> (r.value.caseSensitive <==> Lookup(data.members, "case_sensitive") == Some(JBool(true)))
    ensures r.Success? && Lookup(data.members, "reference_replacements").None? ==> r.value.replacements == []
    ensures r.Success? && Lookup(data.members, "equivalences").None? ==> r.value.equivalences == []
    ensures r.Success? && Lookup(data.members, "clean_up").None? ==> r.value.cleanUp == []
  {
    var members := data.members;
    var replacements := match Lookup(members, "reference_replacements") {
      case None => Some([])
      case Some(v) => StringEntries(v.members)
    };
    var equivalences := match Lookup(members, "equivalences") {
      case None => Some([])
      case Some(v) => ListEntries(v.members)
    };
    var cleanUp := match Lookup(members, "clean_up") {
      case None => Some([])
      case Some(v) => Strings(v.items)
    };
    var caseSensitive := match Lookup(members, "case_sensitive") {
      case None => false
      case Some(v) => v.b
    };
    if replacements.None? then Failure("reference replacements must map strings to strings")
    else if equivalences.None? then Failure("equivalence values must be lists of strings, strings or false values")
    else if cleanUp.None? then Failure("clean_up must list strings")
    else Success(Adjustments(replacements.value, equivalences.value, cleanUp.value, caseSensitive))
  }

  /** Each replacement and each equivalence entry keeps its key, its order and
      its value. */
  lemma AdjustmentsOfEntries(data: Json)
    requires LoadAdjustments(data).Success?
    requires Lookup(data.members, "reference_replacements").Some? && Lookup(data.members, "equivalences").Some?
    ensures var rm := Lookup(data.members, "reference_replacements").value.members;
      var em := Lookup(data.members, "equivalences").value.members;
      var r := AdjustmentsOf(data);
      r.Success? ==>
        && |r.value.replacements| == |rm|
        && (forall k :: 0 <= k < |rm| ==> rm[k].1.JString? && r.value.replacements[k] == (rm[k].0, rm[k].1.s))
        && |r.value.equivalences| == |em|
        && (forall k :: 0 <= k < |em| ==>
              GroupOf(em[k].1).Some? && r.value.equivalences[k] == (em[k].0, GroupOf(em[k].1).value))
  {
    var rm := Lookup(data.members, "reference_replacements").value.members;
    var em := Lookup(data.members, "equivalences").value.members;
    if AdjustmentsOf(data).Success? {
      assert StringEntries(rm).Some? && ListEntries(em).Some?;
    }
  }

  /** A string value is a group of its characters: `{"x": "ab"}` rewrites the
      word "b" to "a"; and a null value is skipped. */
  lemma StringEquivalenceGroup()
    ensures var data := JObject([("equivalences", JObject([("x", JString("ab")), ("y", JNull)]))]);
      && LoadAdjustments(data).Success?
      && AdjustmentsOf(data) == Success(Adjustments([], [("x", ["a", "b"]), ("y", [])], [], false))
  {
    var em := [("x", JString("ab")), ("y", JNull)];
    var data := JObject([("equivalences", JObject(em))]);
    var g := GroupOf(JString("ab")).value;
    assert g[0] == "a" && g[1] == "b";
    assert g == ["a", "b"];
    assert ListEntries(em[1..]) == Some([("y", [])]) by {
      var one := em[1..];
      assert one == [("y", JNull)] && one[1..] == [];
      assert ListEntries(one[1..]) == Some([]);
      assert GroupOf(one[0].1) == Some([]);
      var none: seq<string> := [];
      assert [(one[0].0, none)] + [] == [("y", none)];
    }
    assert GroupOf(em[0].1) == Some(["a", "b"]);
    assert [(em[0].0, ["a", "b"])] + [("y", [])] == [("x", ["a", "b"]), ("y", [])];
    assert ListEntries(em) == Some([("x", ["a", "b"]), ("y", [])]);
    assert data.members[1..] == [];
    assert FirstUnknownKey(data.members) == None;
    assert Lookup(data.members, "equivalences") == Some(JObject(em));
    assert Lookup(data.members, "reference_replacements") == None;
    assert Lookup(data.members, "clean_up") == None;
    assert Lookup(data.members, "case_sensitive") == None;
  }

  /** An empty object loads as no adjustments at all. */
  lemma EmptyObjectLoads()
    ensures LoadAdjustments(JObject([])) == Success(JObject([]))
    ensures AdjustmentsOf(JObject([])) == Success(NoAdjustments)
  {
  }
}
