/** Utterance IDs: Python's string order (code point by code point, a proper
    prefix first), sorted listings of ID sets, and the text forms used in
    messages. */
module Ids {

  /** `a < b` on Python strings. */
  predicate Less(a: string, b: string)
    decreases |a|
  {
    if |a| == 0 then |b| > 0
    else if |b| == 0 then false
    else if a[0] != b[0] then a[0] < b[0]
    else Less(a[1..], b[1..])
  }

  lemma {:induction false} LessIrreflexive(a: string)
    ensures !Less(a, a)
    decreases |a|
  {
    if |a| > 0 {
      LessIrreflexive(a[1..]);
    }
  }

  lemma {:induction false} LessTransitive(a: string, b: string, c: string)
    requires Less(a, b) && Less(b, c)
    ensures Less(a, c)
    decreases |a|
  {
    if |a| > 0 && a[0] == b[0] && b[0] == c[0] {
      LessTransitive(a[1..], b[1..], c[1..]);
    }
  }

  /** Any two different strings are ordered one way or the other, and not both. */
  lemma {:induction false} LessTotal(a: string, b: string)
    ensures a == b || Less(a, b) || Less(b, a)
    ensures !(Less(a, b) && Less(b, a))
    decreases |a|
  {
    if |a| > 0 && |b| > 0 && a[0] == b[0] {
      LessTotal(a[1..], b[1..]);
      if a[1..] == b[1..] {
        assert a == [a[0]] + a[1..] && b == [b[0]] + b[1..];
      }
    }
  }

  predicate StrictlySorted(xs: seq<string>) {
    forall i, j :: 0 <= i < j < |xs| ==> Less(xs[i], xs[j])
  }

  function Elements(xs: seq<string>): set<string> {
    set x | x in xs
  }

  /** Inserts `x` into a sorted list unless it is already there. */
  function Insert(x: string, xs: seq<string>): (r: seq<string>)
    requires StrictlySorted(xs)
    ensures StrictlySorted(r) && Elements(r) == Elements(xs) + {x}
    decreases |xs|
  {
    if |xs| == 0 then [x]
    else if x == xs[0] then xs
    else if Less(x, xs[0]) then
      TransitiveFromHead(x, xs);
      [x] + xs
    else
      LessTotal(x, xs[0]);
      var rest := Insert(x, xs[1..]);
      assert forall k :: 0 <= k < |rest| ==> Less(xs[0], rest[k]) by {
        forall k | 0 <= k < |rest| ensures Less(xs[0], rest[k]) {
          assert rest[k] in Elements(xs[1..]) + {x};
        }
      }
      assert Elements(xs) == {xs[0]} + Elements(xs[1..]);
      ConsSorted(xs[0], rest);
      assert Elements([xs[0]] + rest) == {xs[0]} + Elements(rest);
      [xs[0]] + rest
  }

  lemma ConsSorted(h: string, rest: seq<string>)
    requires StrictlySorted(rest) && forall k :: 0 <= k < |rest| ==> Less(h, rest[k])
    ensures StrictlySorted([h] + rest)
  {
    var r := [h] + rest;
    forall i, j | 0 <= i < j < |r| ensures Less(r[i], r[j]) {
      if i > 0 {
        assert r[i] == rest[i - 1] && r[j] == rest[j - 1];
      }
    }
  }

  lemma TransitiveFromHead(x: string, xs: seq<string>)
    requires StrictlySorted(xs) && |xs| > 0 && Less(x, xs[0])
    ensures StrictlySorted([x] + xs)
  {
    forall k | 0 < k < |xs| ensures Less(x, xs[k]) {
      LessTransitive(x, xs[0], xs[k]);
    }
  }

  /** The distinct elements of `xs` in ascending order: `sorted(set(xs))`. */
  function SortedDistinct(xs: seq<string>): (r: seq<string>)
    ensures StrictlySorted(r) && Elements(r) == Elements(xs)
  {
    if |xs| == 0 then []
    else
      assert Elements(xs) == Elements(xs[1..]) + {xs[0]};
      Insert(xs[0], SortedDistinct(xs[1..]))
  }

  /** A sorted list without repeats is determined by its elements. */
  lemma {:induction false} SortedUnique(a: seq<string>, b: seq<string>)
    requires StrictlySorted(a) && StrictlySorted(b) && Elements(a) == Elements(b)
    ensures a == b
    decreases |a|
  {
    if |b| > 0 {
      assert b[0] in Elements(b);
    }
    if |a| > 0 {
      assert a[0] in Elements(b);
      assert b[0] in Elements(a);
      var i :| 0 <= i < |b| && b[i] == a[0];
      var j :| 0 <= j < |a| && a[j] == b[0];
      if i > 0 && j > 0 {
        LessTransitive(a[0], b[0], a[0]);
        LessIrreflexive(a[0]);
      } else if i > 0 {
        LessIrreflexive(b[0]);
      }
      assert a[0] == b[0];
      forall x ensures x in Elements(a[1..]) <==> x in Elements(b[1..]) {
        if x in Elements(a[1..]) {
          var k :| 1 <= k < |a| && a[k] == x;
          LessIrreflexive(a[0]);
          assert x in Elements(b);
        }
        if x in Elements(b[1..]) {
          var k :| 1 <= k < |b| && b[k] == x;
          LessIrreflexive(b[0]);
          assert x in Elements(a);
        }
      }
      SortedUnique(a[1..], b[1..]);
      assert a == [a[0]] + a[1..] && b == [b[0]] + b[1..];
    }
  }

  lemma {:induction false} ListOfSet(s: set<string>)
    ensures exists xs :: Elements(xs) == s
    decreases |s|
  {
    if s == {} {
      assert Elements([]) == s;
    } else {
      var x :| x in s;
      ListOfSet(s - {x});
      var xs :| Elements(xs) == s - {x};
      assert Elements([x] + xs) == {x} + Elements(xs);
    }
  }

  /** `sorted(ids)` for a set of IDs. */
  ghost function SortedOf(s: set<string>): (r: seq<string>)
    ensures StrictlySorted(r) && Elements(r) == s
  {
    ListOfSet(s);
    var xs :| Elements(xs) == s;
    SortedDistinct(xs)
  }

  /** The sorting loop over a set of IDs. */
  method SortIds(s: set<string>) returns (r: seq<string>)
    ensures r == SortedOf(s)
  {
    r := [];
    var rest := s;
    while rest != {}
      invariant StrictlySorted(r) && Elements(r) + rest == s && Elements(r) !! rest
      decreases |rest|
    {
      var x :| x in rest;
      r := Insert(x, r);
      rest := rest - {x};
    }
    SortedUnique(r, SortedOf(s));
  }

  /** The decimal digits of `n`. */
  function Decimal(n: nat): (r: string)
    ensures |r| > 0 && forall i :: 0 <= i < |r| ==> '0' <= r[i] <= '9'
  {
    var d := [(n % 10) as char + '0'];
    if n < 10 then d else Decimal(n / 10) + d
  }

  /** Python's rendering of a list of strings, `['a', 'b']` (strings that need
      escaping are not distinguished). */
  function ListText(xs: seq<string>): string {
    "[" + Quoted(xs) + "]"
  }

  function Quoted(xs: seq<string>): string {
    if |xs| == 0 then ""
    else if |xs| == 1 then "'" + xs[0] + "'"
    else "'" + xs[0] + "', " + Quoted(xs[1..])
  }
}
