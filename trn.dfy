/** One line of a TRN transcript file, in the native form `ID: text` or the
    sclite form `text (ID)`. The validator and the loader read lines alike and
    differ only in what they reject and how they word it. */
module Trn {
  import opened Results
  import opened Text

  /** The first index from `i` on whose character is not whitespace, or `|s|`. */
  function SkipSpaces(s: string, i: nat): (j: nat)
    requires i <= |s|
    ensures i <= j <= |s| && (j < |s| ==> !IsSpace(s[j])) && forall k :: i <= k < j ==> IsSpace(s[k])
    decreases |s| - i
  {
    if i < |s| && IsSpace(s[i]) then SkipSpaces(s, i + 1) else i
  }

  /** The first index from `i` on holding `c`, or `|s|`. */
  function Find(s: string, i: nat, c: char): (j: nat)
    requires i <= |s|
    ensures i <= j <= |s| && (j < |s| ==> s[j] == c) && forall k :: i <= k < j ==> s[k] != c
    decreases |s| - i
  {
    if i < |s| && s[i] != c then Find(s, i + 1, c) else i
  }

  /** `\s+\(([^)]+)\)\s*$` matches `s[i..]`. The whitespace run must end at the
      '(' and the group at the first ')', so the match, if any, is unique. */
  predicate IdSuffixAt(s: string, i: nat)
    requires i <= |s|
  {
    && i < |s| && IsSpace(s[i])
    && var j := SkipSpaces(s, i);
    && j < |s| && s[j] == '('
    && var k := Find(s, j + 1, ')');
    && j + 1 < k < |s| && IsBlank(s[k + 1..])
  }

  /** The lazy `(.+?)`: the shortest non-empty text after which the ID suffix matches. */
  function TextEnd(s: string, i: nat): (r: Option<nat>)
    requires 1 <= i <= |s|
    ensures r.Some? ==> i <= r.value <= |s| && IdSuffixAt(s, r.value)
    ensures r.Some? ==> forall k :: i <= k < r.value ==> !IdSuffixAt(s, k)
    ensures r.None? ==> forall k :: i <= k <= |s| ==> !IdSuffixAt(s, k)
    decreases |s| - i
  {
    if IdSuffixAt(s, i) then Some(i)
    else if i == |s| then None
    else TextEnd(s, i + 1)
  }

  /** The groups (text, ID) of `^(.+?)\s+\(([^)]+)\)\s*$` on `s`. */
  function ScliteGroups(s: string): Option<(string, string)> {
    if |s| == 0 then None
    else match TextEnd(s, 1) {
      case None => None
      case Some(i) =>
        var j := SkipSpaces(s, i);
        var k := Find(s, j + 1, ')');
        Some((s[..i], s[j + 1..k]))
    }
  }

  /** What one line holds. */
  datatype Line =
    | Blank
    | Entry(id: string, text: string)
    | MissingColon
    | NotSclite

  /** A line after `strip()`: blank lines hold nothing; a native line splits at
      its first ':'; a sclite line takes the regex groups; both parts are stripped.
      A line holds nothing exactly when it is all whitespace, and each format
      has its own way to reject a line. */
  function ParseLine(line: string, sclite: bool): (r: Line)
    ensures r.Blank? <==> IsBlank(line)
    ensures sclite ==> !r.MissingColon?
    ensures !sclite ==> !r.NotSclite?
  {
    StripEmptyIffBlank(line);
    var s := Strip(line);
    if |s| == 0 then Blank
    else if sclite then
      match ScliteGroups(s) {
        case None => NotSclite
        case Some((text, id)) => Entry(Strip(id), Strip(text))
      }
    else
      var k := Find(s, 0, ':');
      if k == |s| then MissingColon else Entry(Strip(s[..k]), Strip(s[k + 1..]))
  }

  // ---------------------------------------------------------------------

  lemma ColonSurvivesStrip(line: string)
    ensures ':' in Strip(line) <==> ':' in line
  {
    StripLeftKeepsNonSpace(line);
    StripRightKeepsNonSpace(StripLeft(line));
    NonSpaceMembers(line, ':');
    NonSpaceMembers(Strip(line), ':');
  }

  /** A native line is rejected exactly when it is not blank and has no ':';
      otherwise it splits at the first ':' into the stripped parts, so the ID
      holds no ':' while the text may. */
  lemma NativeSplit(line: string)
    ensures ParseLine(line, false).MissingColon? <==> !IsBlank(line) && ':' !in line
    ensures ParseLine(line, false).Entry? ==>
      var s := Strip(line);
      exists k :: 0 <= k < |s| && s[k] == ':' && ':' !in s[..k]
        && ParseLine(line, false) == Entry(Strip(s[..k]), Strip(s[k + 1..]))
    ensures !ParseLine(line, false).NotSclite?
  {
    ColonSurvivesStrip(line);
    var s := Strip(line);
    var k := Find(s, 0, ':');
    if k < |s| {
      assert ':' in s;
    } else if |s| > 0 {
      assert ':' !in s;
    }
  }

  lemma ColonFreeId(line: string)
    requires ParseLine(line, false).Entry?
    ensures ':' !in ParseLine(line, false).id
  {
    var s := Strip(line);
    var k := Find(s, 0, ':');
    var p := s[..k];
    StripLeftSuffix(p);
    StripRightPrefix(StripLeft(p));
    assert ':' !in p;
  }

  /** A sclite match is `text`, whitespace, `(ID)` and trailing whitespace, with
      a non-empty text and a non-empty ID free of ')'. */
  lemma ScliteShape(s: string) returns (gap: string, tail: string)
    requires ScliteGroups(s).Some?
    ensures var g := ScliteGroups(s).value;
      && s == g.0 + gap + "(" + g.1 + ")" + tail
      && |g.0| > 0 && |gap| > 0 && IsBlank(gap) && |g.1| > 0 && ')' !in g.1 && IsBlank(tail)
  {
    var i := TextEnd(s, 1).value;
    var j := SkipSpaces(s, i);
    var k := Find(s, j + 1, ')');
    var text, id := s[..i], s[j + 1..k];
    assert ScliteGroups(s).value == (text, id);
    gap, tail := s[i..j], s[k + 1..];
    Pieces(s, i, j, k);
  }

  lemma Pieces(s: string, i: nat, j: nat, k: nat)
    requires 0 < i < j < k < |s| && s[j] == '(' && s[k] == ')'
    requires forall m :: i <= m < j ==> IsSpace(s[m])
    requires forall m :: j + 1 <= m < k ==> s[m] != ')'
    ensures s == s[..i] + s[i..j] + "(" + s[j + 1..k] + ")" + s[k + 1..]
    ensures IsBlank(s[i..j]) && ')' !in s[j + 1..k]
  {
    assert s[..j] == s[..i] + s[i..j];
    assert s[..j + 1] == s[..j] + "(";
    assert s[..k] == s[..j + 1] + s[j + 1..k];
    assert s[..k + 1] == s[..k] + ")";
    assert s == s[..k + 1] + s[k + 1..];
    assert IsBlank(s[i..j]) by {
      forall m | 0 <= m < j - i ensures IsSpace(s[i..j][m]) { assert s[i..j][m] == s[i + m]; }
    }
    var id := s[j + 1..k];
    assert ')' !in id by {
      forall m | 0 <= m < |id| ensures id[m] != ')' { assert id[m] == s[j + 1 + m]; }
    }
  }

  /** Conversely, every line of that shape matches, with a text no longer than
      the one it was built from (the text group is lazy). */
  lemma ScliteComplete(text: string, gap: string, id: string, tail: string)
    requires |text| > 0 && |gap| > 0 && IsBlank(gap) && |id| > 0 && ')' !in id && IsBlank(tail)
    ensures var s := text + gap + "(" + id + ")" + tail;
      ScliteGroups(s).Some? && |ScliteGroups(s).value.0| <= |text|
  {
    var s := text + gap + "(" + id + ")" + tail;
    var i := |text|;
    var j := i + |gap|;
    var k := j + 1 + |id|;
    assert s[i] == gap[0];
    assert forall m :: i <= m < j ==> s[m] == gap[m - i];
    assert s[j] == '(';
    assert SkipSpaces(s, i) == j;
    assert forall m :: j + 1 <= m < k ==> s[m] == id[m - j - 1];
    assert s[k] == ')';
    assert Find(s, j + 1, ')') == k;
    assert s[k + 1..] == tail;
    assert IdSuffixAt(s, i);
  }

  /** `text (ID)` reads back as (ID, text) when the text is stripped and holds
      no '(' and the ID is stripped and holds no ')'. */
  lemma ScliteRoundTrip(text: string, id: string)
    requires |text| > 0 && Strip(text) == text && '(' !in text
    requires |id| > 0 && Strip(id) == id && ')' !in id
    ensures ParseLine(text + " (" + id + ")", true) == Entry(id, text)
  {
    var s := text + " (" + id + ")";
    StrippedEnds(text);
    assert s[0] == text[0] && s[|s| - 1] == ')';
    StripFixed(s);
    ScliteGroupsOf(text, id);
  }

  lemma ScliteGroupsOf(text: string, id: string)
    requires |text| > 0 && !IsSpace(text[|text| - 1]) && '(' !in text
    requires |id| > 0 && ')' !in id
    ensures ScliteGroups(text + " (" + id + ")") == Some((text, id))
  {
    var s := text + " (" + id + ")";
    assert s == text + " " + "(" + id + ")" + "";
    ScliteComplete(text, " ", id, "");
    var i := TextEnd(s, 1).value;
    assert s[..|text|] == text;
    if i < |text| {
      NoEarlierSuffix(s, text, i);
    }
    assert i == |text|;
    assert s[i] == ' ' && s[i + 1] == '(';
    assert SkipSpaces(s, i) == i + 1;
    var k := Find(s, i + 2, ')');
    assert s[i + 2..|s| - 1] == id;
    assert k == |s| - 1;
  }

  lemma NoEarlierSuffix(s: string, text: string, i: nat)
    requires |text| <= |s| && s[..|text|] == text && '(' !in text
    requires |text| > 0 && !IsSpace(text[|text| - 1]) && i < |text|
    ensures !IdSuffixAt(s, i)
  {
    var j := SkipSpaces(s, i);
    assert s[|text| - 1] == text[|text| - 1];
    assert j < |text|;
    assert s[j] == text[j];
  }

  /** `ID: text` reads back as (ID, text) when the ID is stripped, non-empty and
      free of ':' and the text is stripped. */
  lemma NativeRoundTrip(id: string, text: string)
    requires |id| > 0 && Strip(id) == id && ':' !in id
    requires Strip(text) == text
    ensures ParseLine(id + ": " + text, false) == Entry(id, text)
  {
    var line := id + ": " + text;
    StrippedEnds(id);
    StrippedEnds(text);
    var s := Strip(line);
    if |text| > 0 {
      assert line[0] == id[0] && line[|line| - 1] == text[|text| - 1];
      StripFixed(line);
    } else {
      assert line == id + ":" + " ";
      StripFixed(id + ":");
      assert StripLeft(line) == line;
      assert StripRight(line) == StripRight(id + ":");
    }
    assert s[..|id|] == id && s[|id|] == ':';
    assert forall m :: 0 <= m < |id| ==> s[m] == id[m];
    assert Find(s, 0, ':') == |id|;
    if |text| > 0 {
      assert s[|id| + 1..] == " " + text;
      assert StripLeft(" " + text) == StripLeft(text) by { assert (" " + text)[1..] == text; }
    } else {
      assert s[|id| + 1..] == "";
    }
  }

  /** A stripped non-empty string ends in non-whitespace on both sides. */
  lemma StrippedEnds(s: string)
    requires Strip(s) == s
    ensures |s| > 0 ==> !IsSpace(s[0]) && !IsSpace(s[|s| - 1])
  {
    if |s| > 0 {
      StripLeftBlank(s);
      StripLength(s);
      StripLeftSuffix(s);
      StripRightPrefix(StripLeft(s));
      assert StripLeft(s) == s;
      if IsSpace(s[|s| - 1]) {
        assert StripRight(s) == StripRight(s[..|s| - 1]);
        StripRightPrefix(s[..|s| - 1]);
      }
    }
  }

  lemma StripFixed(s: string)
    requires |s| > 0 && !IsSpace(s[0]) && !IsSpace(s[|s| - 1])
    ensures Strip(s) == s
  {
  }
  // ---------------------------------------------------------------------
  // The records of a file, and the dictionary `{id: text for id, text in records}`

  type Record = (string, string)

  /** An (ID, reference, hypothesis) triple. */
  type Triple = (string, string, string)

  /** The non-blank lines, read. */
  function Entries(lines: seq<string>, sclite: bool): seq<Line>
    decreases |lines|
  {
    if |lines| == 0 then []
    else
      var l := ParseLine(lines[|lines| - 1], sclite);
      Entries(lines[..|lines| - 1], sclite) + (if l.Blank? then [] else [l])
  }

  /** The records are the entries, one for one. */
  predicate Matches(rs: seq<Record>, es: seq<Line>) {
    |rs| == |es| && forall i :: 0 <= i < |rs| ==> es[i] == Entry(rs[i].0, rs[i].1)
  }


  function IdsOf(rs: seq<Record>): set<string> {
    set k | 0 <= k < |rs| :: rs[k].0
  }

  predicate DistinctIds(rs: seq<Record>) {
    forall i, j :: 0 <= i < j < |rs| ==> rs[i].0 != rs[j].0
  }

  /** The dictionary built from the records in order: a later record for an ID
      replaces an earlier one. */
  function MapOf(rs: seq<Record>): map<string, string>
    decreases |rs|
  {
    if |rs| == 0 then map[] else MapOf(rs[..|rs| - 1])[rs[|rs| - 1].0 := rs[|rs| - 1].1]
  }

  lemma {:induction false} MapOfDomain(rs: seq<Record>)
    ensures MapOf(rs).Keys == IdsOf(rs)
    decreases |rs|
  {
    if |rs| > 0 {
      var front := rs[..|rs| - 1];
      MapOfDomain(front);
      assert IdsOf(rs) == IdsOf(front) + {rs[|rs| - 1].0} by {
        forall x ensures x in IdsOf(rs) <==> x in IdsOf(front) + {rs[|rs| - 1].0} {
          if x in IdsOf(rs) {
            var k :| 0 <= k < |rs| && rs[k].0 == x;
            if k < |rs| - 1 { assert front[k] == rs[k]; }
          }
          if x in IdsOf(front) {
            var k :| 0 <= k < |front| && front[k].0 == x;
            assert rs[k] == front[k];
          }
        }
      }
    }
  }

  /** The text an ID maps to is that of the last record with that ID. */
  lemma {:induction false} MapOfLast(rs: seq<Record>, i: nat)
    requires i < |rs| && forall j :: i < j < |rs| ==> rs[j].0 != rs[i].0
    ensures rs[i].0 in MapOf(rs) && MapOf(rs)[rs[i].0] == rs[i].1
    decreases |rs|
  {
    if i < |rs| - 1 {
      var front := rs[..|rs| - 1];
      assert front[i] == rs[i];
      MapOfLast(front, i);
    }
  }

  /** With distinct IDs the dictionary holds exactly the records. */
  lemma MapOfDistinct(rs: seq<Record>, id: string, text: string)
    requires DistinctIds(rs)
    ensures id in MapOf(rs) && MapOf(rs)[id] == text <==> (id, text) in rs
  {
    MapOfDomain(rs);
    if (id, text) in rs {
      var i :| 0 <= i < |rs| && rs[i] == (id, text);
      MapOfLast(rs, i);
    }
    if id in MapOf(rs) && MapOf(rs)[id] == text {
      assert id in IdsOf(rs);
      var i :| 0 <= i < |rs| && rs[i].0 == id;
      MapOfLast(rs, i);
      assert rs[i] == (id, text);
    }
  }
}
