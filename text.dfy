/** Character classes and whitespace handling shared by all components:
    Python's `str.isspace`, `str.lower`, `str.split()`, `str.strip()` and
    `re.sub(r'\s+', ' ', s)`, on strings of Unicode code points. */
module Text {

  /** Python's `str.isspace()`, which is also what `\s`, `split()` and
      `strip()` use for `str` values. */
  predicate IsSpace(c: char) {
    c == ' ' || ('\t' <= c <= '\r') || ('\U{1C}' <= c <= '\U{1F}') || c == '\U{85}' || c == '\U{A0}'
    || c == '\U{1680}' || ('\U{2000}' <= c <= '\U{200A}') || c == '\U{2028}' || c == '\U{2029}'
    || c == '\U{202F}' || c == '\U{205F}' || c == '\U{3000}'
  }

  /** The upper-case letters `LowerChar` maps: ASCII and Latin-1. */
  predicate IsUpper(c: char) {
    'A' <= c <= 'Z' || ('\U{C0}' <= c <= '\U{DE}' && c != '\U{D7}')
  }

  /** Lower-casing of one code point, for the ASCII and Latin-1 letters. */
  function LowerChar(c: char): (d: char)
    ensures IsSpace(d) <==> IsSpace(c)
    ensures !IsUpper(d)
    ensures c == d <==> !IsUpper(c)
  {
    if IsUpper(c) then (c as int + 32) as char else c
  }

  /** `s.lower()`. */
  function Lower(s: string): (r: string)
    ensures |r| == |s|
    ensures forall i :: 0 <= i < |s| ==> r[i] == LowerChar(s[i])
  {
    seq(|s|, i requires 0 <= i < |s| => LowerChar(s[i]))
  }

  /** Every character of `s` is whitespace, i.e. `not s.strip()` holds in Python. */
  predicate IsBlank(s: string) {
    forall i :: 0 <= i < |s| ==> IsSpace(s[i])
  }

  /** A word: a non-empty run of non-whitespace characters. */
  predicate IsWord(w: string) {
    |w| > 0 && forall i :: 0 <= i < |w| ==> !IsSpace(w[i])
  }

  /** A string in the form whitespace normalisation produces: no leading or
      trailing whitespace, and every whitespace character is a single ' ' that
      is followed by a non-whitespace character. */
  predicate IsCanonical(s: string) {
    (|s| > 0 ==> !IsSpace(s[0]) && !IsSpace(s[|s| - 1]))
    && forall i :: 0 <= i < |s| && IsSpace(s[i]) ==> s[i] == ' ' && i + 1 < |s| && !IsSpace(s[i + 1])
  }

  /** Length of the leading run of whitespace. */
  function LeadingSpaces(s: string): (n: nat)
    ensures n <= |s|
  {
    if |s| == 0 || !IsSpace(s[0]) then 0 else 1 + LeadingSpaces(s[1..])
  }

  /** Length of the leading run of non-whitespace characters. */
  function WordLength(s: string): (n: nat)
    ensures n <= |s|
  {
    if |s| == 0 || IsSpace(s[0]) then 0 else 1 + WordLength(s[1..])
  }

  /** `s.split()`: the maximal runs of non-whitespace characters, in order. */
  function Words(s: string): seq<string>
    decreases |s|
  {
    if |s| == 0 then []
    else if IsSpace(s[0]) then Words(s[1..])
    else
      var n := WordLength(s);
      [s[..n]] + Words(s[n..])
  }

  /** `' '.join(ws)`. */
  function JoinWords(ws: seq<string>): string {
    if |ws| == 0 then ""
    else if |ws| == 1 then ws[0]
    else ws[0] + " " + JoinWords(ws[1..])
  }

  function StripLeft(s: string): string {
    if |s| > 0 && IsSpace(s[0]) then StripLeft(s[1..]) else s
  }

  function StripRight(s: string): string {
    if |s| > 0 && IsSpace(s[|s| - 1]) then StripRight(s[..|s| - 1]) else s
  }

  /** `s.strip()`. */
  function Strip(s: string): string {
    StripRight(StripLeft(s))
  }

  /** `re.sub(r'\s+', ' ', s)`: every maximal run of whitespace becomes one space. */
  function CollapseSpaces(s: string): string
    decreases |s|
  {
    if |s| == 0 then ""
    else if IsSpace(s[0]) then " " + CollapseSpaces(s[LeadingSpaces(s)..])
    else [s[0]] + CollapseSpaces(s[1..])
  }

  /** `re.sub(r'\s+', ' ', s).strip()`, the whitespace normalisation that ends
      both `transform_text` and `apply_clean_up`. */
  function NormalizeSpaces(s: string): string {
    Strip(CollapseSpaces(s))
  }

  // ---------------------------------------------------------------------
  // Lemmas about blank strings and words

  lemma {:induction false} LeadingSpacesRun(s: string)
    ensures forall i :: 0 <= i < LeadingSpaces(s) ==> IsSpace(s[i])
    ensures LeadingSpaces(s) < |s| ==> !IsSpace(s[LeadingSpaces(s)])
    ensures LeadingSpaces(s) > 0 ==> IsSpace(s[0])
  {
    if |s| > 0 && IsSpace(s[0]) {
      LeadingSpacesRun(s[1..]);
    }
  }

  lemma {:induction false} WordLengthRun(s: string)
    ensures forall i :: 0 <= i < WordLength(s) ==> !IsSpace(s[i])
    ensures WordLength(s) < |s| ==> IsSpace(s[WordLength(s)])
    ensures |s| > 0 && !IsSpace(s[0]) ==> WordLength(s) > 0
  {
    if |s| > 0 && !IsSpace(s[0]) {
      WordLengthRun(s[1..]);
    }
  }

  /** Every element of `s.split()` is a word. */
  lemma {:induction false} WordsAreWords(s: string)
    ensures forall k :: 0 <= k < |Words(s)| ==> IsWord(Words(s)[k])
    decreases |s|
  {
    if |s| > 0 {
      if IsSpace(s[0]) {
        WordsAreWords(s[1..]);
      } else {
        var n := WordLength(s);
        WordLengthRun(s);
        WordsAreWords(s[n..]);
        assert IsWord(s[..n]);
      }
    }
  }

  lemma {:induction false} WordsEmptyIffBlank(s: string)
    ensures Words(s) == [] <==> IsBlank(s)
    decreases |s|
  {
    if |s| > 0 {
      if IsSpace(s[0]) {
        WordsEmptyIffBlank(s[1..]);
        if IsBlank(s[1..]) {
          forall i | 0 <= i < |s| ensures IsSpace(s[i]) {
            if i > 0 { assert s[i] == s[1..][i - 1]; }
          }
        }
      }
    }
  }

  lemma {:induction false} StripLeftBlank(s: string)
    ensures StripLeft(s) == [] <==> IsBlank(s)
    ensures |StripLeft(s)| > 0 ==> !IsSpace(StripLeft(s)[0])
    ensures IsBlank(s) || exists i :: 0 <= i < |s| && !IsSpace(s[i]) && StripLeft(s) == s[i..]
    decreases |s|
  {
    if |s| > 0 && IsSpace(s[0]) {
      StripLeftBlank(s[1..]);
      if IsBlank(s[1..]) {
        forall i | 0 <= i < |s| ensures IsSpace(s[i]) {
          if i > 0 { assert s[i] == s[1..][i - 1]; }
        }
      } else {
        var i :| 0 <= i < |s[1..]| && !IsSpace(s[1..][i]) && StripLeft(s[1..]) == s[1..][i..];
        assert s[1..][i..] == s[i + 1..];
      }
    } else if |s| > 0 {
      assert !IsSpace(s[0]) && StripLeft(s) == s[0..];
    }
  }

  lemma {:induction false} StripRightNonBlankEnd(s: string)
    requires |s| > 0 && !IsSpace(s[0])
    ensures |StripRight(s)| > 0 && StripRight(s)[0] == s[0] && !IsSpace(StripRight(s)[|StripRight(s)| - 1])
    decreases |s|
  {
    if IsSpace(s[|s| - 1]) {
      StripRightNonBlankEnd(s[..|s| - 1]);
    }
  }

  /** `not s.strip()` is exactly "every character is whitespace". */
  lemma StripEmptyIffBlank(s: string)
    ensures Strip(s) == [] <==> IsBlank(s)
  {
    StripLeftBlank(s);
    if !IsBlank(s) {
      StripRightNonBlankEnd(StripLeft(s));
    }
  }

  lemma {:induction false} WordLengthAll(w: string, rest: string)
    requires forall i :: 0 <= i < |w| ==> !IsSpace(w[i])
    requires |rest| == 0 || IsSpace(rest[0])
    ensures WordLength(w + rest) == |w|
    decreases |w|
  {
    if |w| > 0 {
      assert (w + rest)[1..] == w[1..] + rest;
      WordLengthAll(w[1..], rest);
    } else {
      assert w + rest == rest;
    }
  }

  /** Skipping leading whitespace does not change the words. */
  lemma {:induction false} WordsSkipSpaces(s: string, k: nat)
    requires k <= LeadingSpaces(s)
    ensures Words(s) == Words(s[k..])
    decreases k
  {
    if k > 0 {
      WordsSkipSpaces(s[1..], k - 1);
      assert s[1..][k - 1..] == s[k..];
    }
  }

  /** Collapsing passes a leading word through unchanged. */
  lemma {:induction false} CollapseWord(s: string)
    requires |s| > 0 && !IsSpace(s[0])
    ensures CollapseSpaces(s) == s[..WordLength(s)] + CollapseSpaces(s[WordLength(s)..])
    decreases |s|
  {
    var n := WordLength(s);
    var t := s[1..];
    assert CollapseSpaces(s) == [s[0]] + CollapseSpaces(t);
    assert n == 1 + WordLength(t);
    if n == 1 {
      assert s[..1] == [s[0]];
      assert s[1..] == t;
    } else {
      CollapseWord(t);
      assert t[..n - 1] == s[1..n];
      assert t[n - 1..] == s[n..];
      assert [s[0]] + s[1..n] == s[..n];
    }
  }

  /** Sides of a collapsed string: one space if the input started/ended in whitespace. */
  function LeadPad(s: string): string {
    if |s| > 0 && IsSpace(s[0]) then " " else ""
  }

  function TrailPad(s: string): string {
    if |s| > 0 && IsSpace(s[|s| - 1]) && Words(s) != [] then " " else ""
  }

  lemma {:induction false} JoinWordsShape(ws: seq<string>)
    requires forall k :: 0 <= k < |ws| ==> IsWord(ws[k])
    ensures IsCanonical(JoinWords(ws))
    ensures |ws| > 0 ==> |JoinWords(ws)| > 0
  {
    if |ws| > 1 {
      JoinWordsShape(ws[1..]);
      var w, r := ws[0], JoinWords(ws[1..]);
      var s := w + " " + r;
      assert JoinWords(ws) == s;
      forall i | 0 <= i < |s| && IsSpace(s[i]) ensures s[i] == ' ' && i + 1 < |s| && !IsSpace(s[i + 1]) {
        if i == |w| {
          assert s[i + 1] == r[0];
        } else if i > |w| {
          assert s[i] == r[i - |w| - 1];
          if i + 1 < |s| { assert s[i + 1] == r[i - |w|]; }
        }
      }
      assert s[0] == w[0];
      assert s[|s| - 1] == r[|r| - 1];
    }
  }

  /** The exact shape of `re.sub(r'\s+', ' ', s)`: the words joined by single spaces,
      with one space on a side where the input had whitespace. */
  lemma {:induction false} CollapseShape(s: string)
    ensures CollapseSpaces(s) == LeadPad(s) + JoinWords(Words(s)) + TrailPad(s)
    decreases |s|, 1
  {
    if |s| == 0 {
    } else if IsSpace(s[0]) {
      CollapseShapeSpace(s);
    } else {
      CollapseShapeWord(s);
    }
  }

  lemma {:induction false} CollapseShapeSpace(s: string)
    requires |s| > 0 && IsSpace(s[0])
    ensures CollapseSpaces(s) == LeadPad(s) + JoinWords(Words(s)) + TrailPad(s)
    decreases |s|, 0
  {
    var k := LeadingSpaces(s);
    var t := s[k..];
    LeadingSpacesRun(s);
    assert CollapseSpaces(s) == " " + CollapseSpaces(t);
    CollapseShape(t);
    WordsSkipSpaces(s, k);
    assert LeadPad(t) == "";
    assert TrailPad(t) == TrailPad(s) by {
      if |t| > 0 {
        assert t[|t| - 1] == s[|s| - 1];
      }
    }
    var body := JoinWords(Words(s)) + TrailPad(s);
    assert CollapseSpaces(t) == body by {
      assert LeadPad(t) + JoinWords(Words(t)) + TrailPad(t) == "" + body;
    }
    assert LeadPad(s) + JoinWords(Words(s)) + TrailPad(s) == " " + body;
  }

  lemma {:induction false} CollapseShapeWord(s: string)
    requires |s| > 0 && !IsSpace(s[0])
    ensures CollapseSpaces(s) == LeadPad(s) + JoinWords(Words(s)) + TrailPad(s)
    decreases |s|, 0
  {
    var n := WordLength(s);
    var w, t := s[..n], s[n..];
    WordStep(s);
    if |t| > 0 {
      CollapseShape(t);
    }
    JoinCons(w, Words(t));
    ShapeAssemble(w, |t| == 0, Words(t), CollapseSpaces(t), LeadPad(t), TrailPad(t),
                  CollapseSpaces(s), JoinWords(Words(s)), JoinWords(Words(t)), TrailPad(s));
  }

  /** The concatenation algebra closing `CollapseShapeWord`, over plain values. */
  lemma ShapeAssemble(w: string, tEmpty: bool, wt: seq<string>, ct: string, lpt: string, tpt: string,
                      cs: string, js: string, jt: string, tps: string)
    requires cs == w + ct
    requires js == if wt == [] then w else w + " " + jt
    requires tps == if tEmpty then "" else if wt == [] then " " else tpt
    requires tEmpty ==> wt == [] && ct == ""
    requires !tEmpty ==> lpt == " " && ct == lpt + jt + tpt
    requires wt == [] ==> jt == "" && (!tEmpty ==> tpt == "")
    ensures cs == "" + js + tps
  {
  }

  /** One word step of `CollapseSpaces`, `Words` and the pads. */
  lemma WordStep(s: string)
    requires |s| > 0 && !IsSpace(s[0])
    ensures var n := WordLength(s);
      && CollapseSpaces(s) == s[..n] + CollapseSpaces(s[n..])
      && Words(s) == [s[..n]] + Words(s[n..])
      && LeadPad(s) == ""
      && TrailPad(s) == (if |s[n..]| == 0 then "" else if Words(s[n..]) == [] then " " else TrailPad(s[n..]))
      && (|s[n..]| > 0 ==> LeadPad(s[n..]) == " ")
      && (|s[n..]| == 0 ==> Words(s[n..]) == [] && CollapseSpaces(s[n..]) == "")
  {
    CollapseWord(s);
    WordLengthRun(s);
    WordStepTrail(s, WordLength(s));
  }

  lemma WordStepTrail(s: string, n: nat)
    requires 0 < n <= |s|
    requires forall i :: 0 <= i < n ==> !IsSpace(s[i])
    requires n < |s| ==> IsSpace(s[n])
    requires Words(s) != []
    ensures TrailPad(s) == (if |s[n..]| == 0 then "" else if Words(s[n..]) == [] then " " else TrailPad(s[n..]))
  {
    var t := s[n..];
    if |t| > 0 {
      assert t[|t| - 1] == s[|s| - 1];
      WordsEmptyIffBlank(t);
    } else {
      assert !IsSpace(s[|s| - 1]);
    }
  }

  lemma JoinCons(w: string, ws: seq<string>)
    ensures JoinWords([w] + ws) == if ws == [] then w else w + " " + JoinWords(ws)
  {
    if ws != [] {
      assert ([w] + ws)[1..] == ws;
    }
  }

  /** `lstrip` removes a prefix: what remains is a suffix of the input. */
  lemma {:induction false} StripLeftSuffix(s: string)
    ensures |StripLeft(s)| <= |s| && StripLeft(s) == s[|s| - |StripLeft(s)|..]
    decreases |s|
  {
    if |s| > 0 && IsSpace(s[0]) {
      StripLeftSuffix(s[1..]);
      assert s[1..][|s| - 1 - |StripLeft(s)|..] == s[|s| - |StripLeft(s)|..];
    }
  }

  /** `rstrip` removes a suffix: what remains is a prefix of the input. */
  lemma {:induction false} StripRightPrefix(s: string)
    ensures |StripRight(s)| <= |s| && StripRight(s) == s[..|StripRight(s)|]
    decreases |s|
  {
    if |s| > 0 && IsSpace(s[|s| - 1]) {
      StripRightPrefix(s[..|s| - 1]);
      assert s[..|s| - 1][..|StripRight(s)|] == s[..|StripRight(s)|];
    }
  }

  /** Stripping never lengthens, and a strip that removes nothing is the identity. */
  lemma StripLength(s: string)
    ensures |Strip(s)| <= |s|
    ensures |Strip(s)| == |s| <==> Strip(s) == s
  {
    StripLeftSuffix(s);
    StripRightPrefix(StripLeft(s));
  }

  lemma StripCanonicalPadded(lead: string, j: string, trail: string)
    requires lead == "" || lead == " "
    requires trail == "" || trail == " "
    requires IsCanonical(j)
    requires |j| == 0 ==> trail == ""
    ensures Strip(lead + j + trail) == j
  {
    var s := lead + j + trail;
    if |j| == 0 {
      assert s == lead;
      if lead == " " { assert StripLeft(s) == StripLeft(s[1..]); assert s[1..] == ""; }
    } else {
      var x := j + trail;
      if lead == " " {
        assert s[1..] == x;
        assert StripLeft(s) == StripLeft(x);
      } else {
        assert s == x;
      }
      assert x[0] == j[0];
      assert StripLeft(x) == x;
      if trail == " " {
        assert x[..|x| - 1] == j;
        assert StripRight(x) == StripRight(j);
      } else {
        assert x == j;
      }
      assert StripRight(j) == j;
    }
  }

  /** Whitespace normalisation joins the words of its input with single spaces. */
  lemma NormalizeIsJoin(s: string)
    ensures NormalizeSpaces(s) == JoinWords(Words(s))
    ensures IsCanonical(NormalizeSpaces(s))
  {
    CollapseShape(s);
    WordsAreWords(s);
    JoinWordsShape(Words(s));
    StripCanonicalPadded(LeadPad(s), JoinWords(Words(s)), TrailPad(s));
  }

  /** Splitting a joined list of words gives the list back. */
  lemma {:induction false} WordsOfJoin(ws: seq<string>)
    requires forall k :: 0 <= k < |ws| ==> IsWord(ws[k])
    ensures Words(JoinWords(ws)) == ws
  {
    if |ws| == 1 {
      var w := ws[0];
      WordLengthAll(w, "");
      assert w + "" == w;
      assert w[|w|..] == "";
    } else if |ws| > 1 {
      var w, r := ws[0], JoinWords(ws[1..]);
      var s := w + " " + r;
      WordsOfJoin(ws[1..]);
      assert s == w + (" " + r);
      WordLengthAll(w, " " + r);
      assert s[..|w|] == w;
      assert s[|w|..] == " " + r;
      assert (" " + r)[1..] == r;
    }
  }

  /** Normalisation does not change the word sequence. */
  lemma NormalizeKeepsWords(s: string)
    ensures Words(NormalizeSpaces(s)) == Words(s)
  {
    NormalizeIsJoin(s);
    WordsAreWords(s);
    WordsOfJoin(Words(s));
  }

  /** A canonical string is the join of its own words, so normalising it is the identity. */
  lemma {:induction false} CanonicalIsJoin(s: string)
    requires IsCanonical(s)
    ensures JoinWords(Words(s)) == s
    decreases |s|, 1
  {
    if |s| > 0 {
      var n := WordLength(s);
      WordLengthRun(s);
      WordsFront(s);
      if n == |s| {
        assert s[..n] == s;
      } else {
        CanonicalIsJoinStep(s, n);
      }
    }
  }

  lemma {:induction false} CanonicalIsJoinStep(s: string, n: nat)
    requires IsCanonical(s) && 0 < n < |s|
    requires forall i :: 0 <= i < n ==> !IsSpace(s[i])
    requires IsSpace(s[n])
    requires Words(s) == [s[..n]] + Words(s[n..])
    ensures JoinWords(Words(s)) == s
    decreases |s|, 0
  {
    var w, t := s[..n], s[n + 1..];
    CanonicalTail(s, n);
    WordsSkipSpaces(s[n..], 1);
    assert s[n..][1..] == t;
    CanonicalIsJoin(t);
    WordsEmptyIffBlank(t);
    JoinCons(w, Words(t));
    assert s == w + " " + t;
  }

  lemma WordsFront(s: string)
    requires |s| > 0 && !IsSpace(s[0])
    ensures Words(s) == [s[..WordLength(s)]] + Words(s[WordLength(s)..])
  {
  }

  /** After the first word of a canonical string come one space and a canonical rest. */
  lemma CanonicalTail(s: string, n: nat)
    requires IsCanonical(s) && n < |s|
    requires forall i :: 0 <= i < n ==> !IsSpace(s[i])
    requires IsSpace(s[n])
    ensures s[n] == ' ' && n + 1 < |s|
    ensures LeadingSpaces(s[n..]) >= 1
    ensures !IsBlank(s[n + 1..])
    ensures IsCanonical(s[n + 1..])
  {
    var t := s[n + 1..];
    assert t[0] == s[n + 1];
    assert t[|t| - 1] == s[|s| - 1];
    forall i | 0 <= i < |t| && IsSpace(t[i]) ensures t[i] == ' ' && i + 1 < |t| && !IsSpace(t[i + 1]) {
      assert t[i] == s[n + 1 + i];
      if i + 1 < |t| { assert t[i + 1] == s[n + 2 + i]; }
    }
  }

  /** Normalising twice is normalising once. */
  lemma NormalizeIdempotent(s: string)
    ensures NormalizeSpaces(NormalizeSpaces(s)) == NormalizeSpaces(s)
  {
    NormalizeIsJoin(s);
    NormalizeIsJoin(NormalizeSpaces(s));
    CanonicalIsJoin(NormalizeSpaces(s));
  }

  /** Normalisation yields the empty string exactly for blank input. */
  lemma NormalizeEmptyIffBlank(s: string)
    ensures NormalizeSpaces(s) == "" <==> IsBlank(s)
  {
    NormalizeKeepsWords(s);
    WordsEmptyIffBlank(s);
    if NormalizeSpaces(s) != "" {
      NormalizeIsJoin(s);
    }
  }

  // ---------------------------------------------------------------------
  // Whitespace normalisation changes only whitespace

  /** The non-whitespace characters of `s`, in order. */
  function NonSpace(s: string): string {
    if |s| == 0 then "" else (if IsSpace(s[0]) then "" else [s[0]]) + NonSpace(s[1..])
  }

  lemma {:induction false} NonSpaceAppend(a: string, b: string)
    ensures NonSpace(a + b) == NonSpace(a) + NonSpace(b)
    decreases |a|
  {
    if |a| == 0 {
      assert a + b == b;
    } else {
      assert (a + b)[1..] == a[1..] + b;
      NonSpaceAppend(a[1..], b);
    }
  }

  lemma {:induction false} NonSpaceMembers(s: string, c: char)
    ensures c in NonSpace(s) <==> c in s && !IsSpace(c)
    decreases |s|
  {
    if |s| > 0 {
      NonSpaceMembers(s[1..], c);
      assert s == [s[0]] + s[1..];
    }
  }

  lemma {:induction false} NonSpaceOfBlank(s: string)
    requires IsBlank(s)
    ensures NonSpace(s) == ""
    decreases |s|
  {
    if |s| > 0 {
      NonSpaceOfBlank(s[1..]);
    }
  }

  lemma {:induction false} CollapseKeepsNonSpace(s: string)
    ensures NonSpace(CollapseSpaces(s)) == NonSpace(s)
    decreases |s|
  {
    if |s| == 0 {
    } else if IsSpace(s[0]) {
      var n := LeadingSpaces(s);
      LeadingSpacesRun(s);
      CollapseKeepsNonSpace(s[n..]);
      NonSpaceAppend(" ", CollapseSpaces(s[n..]));
      assert s == s[..n] + s[n..];
      NonSpaceAppend(s[..n], s[n..]);
      NonSpaceOfBlank(s[..n]);
    } else {
      CollapseKeepsNonSpace(s[1..]);
      NonSpaceAppend([s[0]], CollapseSpaces(s[1..]));
    }
  }

  lemma {:induction false} StripLeftKeepsNonSpace(s: string)
    ensures NonSpace(StripLeft(s)) == NonSpace(s)
    decreases |s|
  {
    if |s| > 0 && IsSpace(s[0]) {
      StripLeftKeepsNonSpace(s[1..]);
    }
  }

  lemma {:induction false} StripRightKeepsNonSpace(s: string)
    ensures NonSpace(StripRight(s)) == NonSpace(s)
    decreases |s|
  {
    if |s| > 0 && IsSpace(s[|s| - 1]) {
      var s' := s[..|s| - 1];
      StripRightKeepsNonSpace(s');
      assert s == s' + [s[|s| - 1]];
      NonSpaceAppend(s', [s[|s| - 1]]);
    }
  }

  /** `re.sub(r'\s+', ' ', s).strip()` deletes and rewrites whitespace only: the
      non-whitespace characters come through unchanged and in order. */
  lemma NormalizeKeepsNonSpace(s: string)
    ensures NonSpace(NormalizeSpaces(s)) == NonSpace(s)
  {
    CollapseKeepsNonSpace(s);
    StripLeftKeepsNonSpace(CollapseSpaces(s));
    StripRightKeepsNonSpace(StripLeft(CollapseSpaces(s)));
  }

  // ---------------------------------------------------------------------
  // Lower-casing commutes with whitespace normalisation

  lemma LowerAppend(a: string, b: string)
    ensures Lower(a + b) == Lower(a) + Lower(b)
  {
  }

  lemma LowerSlice(s: string, i: nat, j: nat)
    requires i <= j <= |s|
    ensures Lower(s)[i..j] == Lower(s[i..j])
  {
  }

  lemma LowerTail(s: string, i: nat)
    requires i <= |s|
    ensures Lower(s)[i..] == Lower(s[i..])
  {
  }

  lemma LowerHead(s: string)
    requires |s| > 0
    ensures |Lower(s)| == |s| && Lower(s)[0] == LowerChar(s[0])
    ensures IsSpace(Lower(s)[0]) <==> IsSpace(s[0])
  {
  }

  lemma {:induction false} LeadingSpacesLower(s: string)
    ensures LeadingSpaces(Lower(s)) == LeadingSpaces(s)
    decreases |s|
  {
    if |s| > 0 {
      LowerHead(s);
      LowerTail(s, 1);
      LeadingSpacesLower(s[1..]);
    }
  }

  lemma {:induction false} CollapseLower(s: string)
    ensures CollapseSpaces(Lower(s)) == Lower(CollapseSpaces(s))
    decreases |s|
  {
    if |s| > 0 {
      LowerHead(s);
      if IsSpace(s[0]) {
        var n := LeadingSpaces(s);
        LeadingSpacesLower(s);
        LowerTail(s, n);
        CollapseLower(s[n..]);
        LowerAppend(" ", CollapseSpaces(s[n..]));
        assert Lower(" ") == " ";
      } else {
        LowerTail(s, 1);
        CollapseLower(s[1..]);
        LowerAppend([s[0]], CollapseSpaces(s[1..]));
      }
    }
  }

  lemma {:induction false} StripLeftLower(s: string)
    ensures StripLeft(Lower(s)) == Lower(StripLeft(s))
    decreases |s|
  {
    if |s| > 0 {
      LowerHead(s);
      LowerTail(s, 1);
      StripLeftLower(s[1..]);
    }
  }

  lemma {:induction false} StripRightLower(s: string)
    ensures StripRight(Lower(s)) == Lower(StripRight(s))
    decreases |s|
  {
    if |s| > 0 && IsSpace(s[|s| - 1]) {
      LowerSlice(s, 0, |s| - 1);
      assert s[0..|s| - 1] == s[..|s| - 1];
      assert Lower(s)[0..|s| - 1] == Lower(s)[..|s| - 1];
      StripRightLower(s[..|s| - 1]);
    }
  }

  /** Lower-casing before or after whitespace normalisation gives the same text. */
  lemma NormalizeLower(s: string)
    ensures NormalizeSpaces(Lower(s)) == Lower(NormalizeSpaces(s))
  {
    CollapseLower(s);
    StripLeftLower(CollapseSpaces(s));
    StripRightLower(StripLeft(CollapseSpaces(s)));
  }
}
