/** Minimum-edit-distance alignment of two unit sequences (words for WER,
    characters for CER): a unit-cost Levenshtein table filled in nested loops
    and a backtrack that emits hit, substitution, deletion and insertion
    operations, preferring match > substitution > deletion > insertion. */
module Aligner {

  datatype EditOp<T> =
    | Hit(r: T)
    | Substitution(r: T, h: T)
    | Deletion(r: T)
    | Insertion(h: T)

  /** The reference units an operation sequence consumes (insertions ignored). */
  function RefSide<T>(ops: seq<EditOp<T>>): seq<T> {
    if |ops| == 0 then []
    else
      var rest := RefSide(ops[..|ops| - 1]);
      match ops[|ops| - 1]
      case Hit(r) => rest + [r]
      case Substitution(r, _) => rest + [r]
      case Deletion(r) => rest + [r]
      case Insertion(_) => rest
  }

  /** The hypothesis units an operation sequence produces (deletions ignored). */
  function HypSide<T>(ops: seq<EditOp<T>>): seq<T> {
    if |ops| == 0 then []
    else
      var rest := HypSide(ops[..|ops| - 1]);
      match ops[|ops| - 1]
      case Hit(h) => rest + [h]
      case Substitution(_, h) => rest + [h]
      case Deletion(_) => rest
      case Insertion(h) => rest + [h]
  }

  function Hits<T>(ops: seq<EditOp<T>>): nat {
    if |ops| == 0 then 0 else Hits(ops[..|ops| - 1]) + (if ops[|ops| - 1].Hit? then 1 else 0)
  }

  function Substitutions<T>(ops: seq<EditOp<T>>): nat {
    if |ops| == 0 then 0 else Substitutions(ops[..|ops| - 1]) + (if ops[|ops| - 1].Substitution? then 1 else 0)
  }

  function Deletions<T>(ops: seq<EditOp<T>>): nat {
    if |ops| == 0 then 0 else Deletions(ops[..|ops| - 1]) + (if ops[|ops| - 1].Deletion? then 1 else 0)
  }

  function Insertions<T>(ops: seq<EditOp<T>>): nat {
    if |ops| == 0 then 0 else Insertions(ops[..|ops| - 1]) + (if ops[|ops| - 1].Insertion? then 1 else 0)
  }

  /** Unit cost: every operation but a hit costs 1. */
  function Errors<T>(ops: seq<EditOp<T>>): nat {
    Substitutions(ops) + Deletions(ops) + Insertions(ops)
  }

  /** A hit pairs equal units and a substitution pairs different ones. */
  predicate WellFormed<T(==)>(ops: seq<EditOp<T>>) {
    forall k :: 0 <= k < |ops| ==>
      (ops[k].Substitution? ==> ops[k].r != ops[k].h)
  }

  /** `ops` is an alignment of `a` against `b`. */
  predicate IsAlignment<T(==)>(ops: seq<EditOp<T>>, a: seq<T>, b: seq<T>) {
    RefSide(ops) == a && HypSide(ops) == b
  }

  function Min3(x: nat, y: nat, z: nat): (m: nat)
    ensures m <= x && m <= y && m <= z
    ensures m == x || m == y || m == z
  {
    if x <= y && x <= z then x else if y <= z then y else z
  }

  /** The Levenshtein recurrence on prefixes: the value of `cost[|a|][|b|]`. */
  function Dist<T(==)>(a: seq<T>, b: seq<T>): nat
    decreases |a| + |b|
  {
    if |a| == 0 then |b|
    else if |b| == 0 then |a|
    else
      var a', b' := a[..|a| - 1], b[..|b| - 1];
      if a[|a| - 1] == b[|b| - 1] then Dist(a', b')
      else 1 + Min3(Dist(a', b'), Dist(a', b), Dist(a, b'))
  }

  /** How many reference and hypothesis units an operation consumes. */
  function RefLen<T>(op: EditOp<T>): nat {
    if op.Insertion? then 0 else 1
  }

  function HypLen<T>(op: EditOp<T>): nat {
    if op.Deletion? then 0 else 1
  }

  function Cost<T>(op: EditOp<T>): nat {
    if op.Hit? then 0 else 1
  }

  /** The operation the backtrack takes from the corner `(|a|, |b|)`: a match if the
      last units agree, else the first of substitution, deletion, insertion whose
      predecessor cell is one cheaper. */
  function Step<T(==)>(a: seq<T>, b: seq<T>): (op: EditOp<T>)
    requires |a| > 0 || |b| > 0
    ensures RefLen(op) <= |a| && HypLen(op) <= |b|
  {
    if |a| == 0 then Insertion(b[|b| - 1])
    else if |b| == 0 then Deletion(a[|a| - 1])
    else
      var a', b' := a[..|a| - 1], b[..|b| - 1];
      if a[|a| - 1] == b[|b| - 1] then Hit(a[|a| - 1])
      else if Dist(a, b) == Dist(a', b') + 1 then Substitution(a[|a| - 1], b[|b| - 1])
      else if Dist(a, b) == Dist(a', b) + 1 then Deletion(a[|a| - 1])
      else Insertion(b[|b| - 1])
  }

  /** The backtrack from `cost[|a|][|b|]` to `cost[0][0]`, as a function: the
      operations in order, with ties broken match > substitution > deletion > insertion. */
  function Trace<T(==)>(a: seq<T>, b: seq<T>): seq<EditOp<T>>
    decreases |a| + |b|
  {
    if |a| == 0 && |b| == 0 then []
    else
      var op := Step(a, b);
      Trace(a[..|a| - RefLen(op)], b[..|b| - HypLen(op)]) + [op]
  }

  // ---------------------------------------------------------------------
  // The table and the backtrack

  /** `cost[i][j]` for the prefixes of length `i` and `j`, one step of the recurrence. */
  lemma DistPrefix<T>(a: seq<T>, b: seq<T>, i: nat, j: nat)
    requires 0 < i <= |a| && 0 < j <= |b|
    ensures Dist(a[..i], b[..j]) ==
      if a[i - 1] == b[j - 1] then Dist(a[..i - 1], b[..j - 1])
      else 1 + Min3(Dist(a[..i - 1], b[..j - 1]), Dist(a[..i - 1], b[..j]), Dist(a[..i], b[..j - 1]))
  {
    assert a[..i][..i - 1] == a[..i - 1];
    assert b[..j][..j - 1] == b[..j - 1];
  }

  /** Fills the `(|a|+1) x (|b|+1)` cost table row by row. */
  method CostTable<T(==)>(a: seq<T>, b: seq<T>) returns (cost: array2<nat>)
    ensures fresh(cost)
    ensures cost.Length0 == |a| + 1 && cost.Length1 == |b| + 1
    ensures forall i, j :: 0 <= i <= |a| && 0 <= j <= |b| ==> cost[i, j] == Dist(a[..i], b[..j])
  {
    cost := new nat[|a| + 1, |b| + 1];
    var i := 0;
    while i <= |a|
      invariant 0 <= i <= |a| + 1
      invariant forall p, q :: 0 <= p < i && 0 <= q <= |b| ==> cost[p, q] == Dist(a[..p], b[..q])
    {
      FillRow(a, b, cost, i);
      i := i + 1;
    }
  }

  /** Row `i` of the table, left to right, from row `i - 1` and the cell to the left. */
  method FillRow<T(==)>(a: seq<T>, b: seq<T>, cost: array2<nat>, i: nat)
    requires cost.Length0 == |a| + 1 && cost.Length1 == |b| + 1 && i <= |a|
    requires forall p, q :: 0 <= p < i && 0 <= q <= |b| ==> cost[p, q] == Dist(a[..p], b[..q])
    modifies cost
    ensures forall p, q :: 0 <= p <= i && 0 <= q <= |b| ==> cost[p, q] == Dist(a[..p], b[..q])
  {
    var j := 0;
    while j <= |b|
      invariant 0 <= j <= |b| + 1
      invariant forall p, q :: 0 <= p < i && 0 <= q <= |b| ==> cost[p, q] == old(cost[p, q])
      invariant forall q :: 0 <= q < j ==> cost[i, q] == Dist(a[..i], b[..q])
    {
      var v := Cell(a, b, cost, i, j);
      cost[i, j] := v;
      j := j + 1;
    }
  }

  /** The value of cell `(i, j)` from the cells above, to the left and diagonally before it. */
  method Cell<T(==)>(a: seq<T>, b: seq<T>, cost: array2<nat>, i: nat, j: nat) returns (v: nat)
    requires cost.Length0 == |a| + 1 && cost.Length1 == |b| + 1 && i <= |a| && j <= |b|
    requires i > 0 && j > 0 ==>
      && cost[i - 1, j - 1] == Dist(a[..i - 1], b[..j - 1])
      && cost[i - 1, j] == Dist(a[..i - 1], b[..j])
      && cost[i, j - 1] == Dist(a[..i], b[..j - 1])
    ensures v == Dist(a[..i], b[..j])
  {
    if i == 0 {
      v := j;
    } else if j == 0 {
      v := i;
    } else {
      DistPrefix(a, b, i, j);
      if a[i - 1] == b[j - 1] {
        v := cost[i - 1, j - 1];
      } else {
        v := 1 + Min3(cost[i - 1, j - 1], cost[i - 1, j], cost[i, j - 1]);
      }
    }
  }

  /** The backtrack step at cell `(i, j)`, read off the table's values. */
  lemma StepPrefix<T>(a: seq<T>, b: seq<T>, i: nat, j: nat)
    requires i <= |a| && j <= |b| && (i > 0 || j > 0)
    ensures Step(a[..i], b[..j]) ==
      if i == 0 then Insertion(b[j - 1])
      else if j == 0 then Deletion(a[i - 1])
      else if a[i - 1] == b[j - 1] then Hit(a[i - 1])
      else if Dist(a[..i], b[..j]) == Dist(a[..i - 1], b[..j - 1]) + 1 then Substitution(a[i - 1], b[j - 1])
      else if Dist(a[..i], b[..j]) == Dist(a[..i - 1], b[..j]) + 1 then Deletion(a[i - 1])
      else Insertion(b[j - 1])
  {
    if i > 0 { assert a[..i][..i - 1] == a[..i - 1]; }
    if j > 0 { assert b[..j][..j - 1] == b[..j - 1]; }
  }

  /** `Trace` on prefixes peels off the step at `(i, j)`. */
  lemma TracePrefix<T>(a: seq<T>, b: seq<T>, i: nat, j: nat)
    requires i <= |a| && j <= |b| && (i > 0 || j > 0)
    ensures var op := Step(a[..i], b[..j]);
      Trace(a[..i], b[..j]) == Trace(a[..i - RefLen(op)], b[..j - HypLen(op)]) + [op]
  {
    var op := Step(a[..i], b[..j]);
    assert a[..i][..i - RefLen(op)] == a[..i - RefLen(op)];
    assert b[..j][..j - HypLen(op)] == b[..j - HypLen(op)];
  }

  /** The backtrack's choice at cell `(i, j)`, read from the filled table. */
  method ChooseStep<T(==)>(a: seq<T>, b: seq<T>, cost: array2<nat>, i: nat, j: nat) returns (op: EditOp<T>)
    requires cost.Length0 == |a| + 1 && cost.Length1 == |b| + 1
    requires forall p, q :: 0 <= p <= |a| && 0 <= q <= |b| ==> cost[p, q] == Dist(a[..p], b[..q])
    requires i <= |a| && j <= |b| && (i > 0 || j > 0)
    ensures op == Step(a[..i], b[..j])
  {
    StepPrefix(a, b, i, j);
    if i > 0 && j > 0 && a[i - 1] == b[j - 1] {
      op := Hit(a[i - 1]);
    } else if i > 0 && j > 0 && cost[i, j] == cost[i - 1, j - 1] + 1 {
      op := Substitution(a[i - 1], b[j - 1]);
    } else if i > 0 && (j == 0 || cost[i, j] == cost[i - 1, j] + 1) {
      op := Deletion(a[i - 1]);
    } else {
      op := Insertion(b[j - 1]);
    }
  }

  /** Backtracks through a filled table from the bottom-right corner. */
  method Backtrack<T(==)>(a: seq<T>, b: seq<T>, cost: array2<nat>) returns (ops: seq<EditOp<T>>)
    requires cost.Length0 == |a| + 1 && cost.Length1 == |b| + 1
    requires forall p, q :: 0 <= p <= |a| && 0 <= q <= |b| ==> cost[p, q] == Dist(a[..p], b[..q])
    ensures ops == Trace(a, b)
  {
    var i, j := |a|, |b|;
    ops := [];
    assert a[..i] == a && b[..j] == b;
    while i > 0 || j > 0
      invariant 0 <= i <= |a| && 0 <= j <= |b|
      invariant Trace(a[..i], b[..j]) + ops == Trace(a, b)
      decreases i + j
    {
      var op := ChooseStep(a, b, cost, i, j);
      TracePrefix(a, b, i, j);
      var i', j' := i - RefLen(op), j - HypLen(op);
      ConcatAssoc(Trace(a[..i'], b[..j']), [op], ops);
      ops := [op] + ops;
      i, j := i', j';
    }
    assert a[..0] == [] && b[..0] == [];
  }

  lemma ConcatAssoc<T>(x: seq<T>, y: seq<T>, z: seq<T>)
    ensures x + (y + z) == (x + y) + z
  {
  }

  /** The alignment of `a` against `b`: fill the table, then backtrack. */
  method Align<T(==)>(a: seq<T>, b: seq<T>) returns (ops: seq<EditOp<T>>)
    ensures ops == Trace(a, b)
  {
    var cost := CostTable(a, b);
    ops := Backtrack(a, b, cost);
  }

  // ---------------------------------------------------------------------
  // Counting

  lemma {:induction false} CountIdentities<T>(ops: seq<EditOp<T>>)
    ensures Hits(ops) + Substitutions(ops) + Deletions(ops) == |RefSide(ops)|
    ensures Hits(ops) + Substitutions(ops) + Insertions(ops) == |HypSide(ops)|
    ensures Hits(ops) + Errors(ops) == |ops|
  {
    if |ops| > 0 {
      CountIdentities(ops[..|ops| - 1]);
    }
  }

  lemma AppendCounts<T>(ops: seq<EditOp<T>>, op: EditOp<T>)
    ensures RefSide(ops + [op]) == RefSide(ops) + RefSide([op])
    ensures HypSide(ops + [op]) == HypSide(ops) + HypSide([op])
    ensures Hits(ops + [op]) == Hits(ops) + Hits([op])
    ensures Substitutions(ops + [op]) == Substitutions(ops) + Substitutions([op])
    ensures Deletions(ops + [op]) == Deletions(ops) + Deletions([op])
    ensures Insertions(ops + [op]) == Insertions(ops) + Insertions([op])
    ensures Errors(ops + [op]) == Errors(ops) + Errors([op])
  {
    assert (ops + [op])[..|ops|] == ops;
    assert [op][..0] == [];
  }

  /** Extending an alignment by one operation extends both sides accordingly. */
  lemma ExtendAlignment<T>(prev: seq<EditOp<T>>, op: EditOp<T>, a: seq<T>, b: seq<T>)
    requires IsAlignment(prev, a, b) && WellFormed(prev)
    requires op.Substitution? ==> op.r != op.h
    ensures IsAlignment(prev + [op], a + RefSide([op]), b + HypSide([op]))
    ensures Errors(prev + [op]) == Errors(prev) + Cost(op)
    ensures WellFormed(prev + [op])
  {
    AppendCounts(prev, op);
    assert forall k :: 0 <= k < |prev| ==> (prev + [op])[k] == prev[k];
  }

  // ---------------------------------------------------------------------
  // The backtrack is a minimum-cost alignment

  /** The step consumes the last units of its inputs, and the distance drops by its cost. */
  lemma StepSound<T>(a: seq<T>, b: seq<T>)
    requires |a| > 0 || |b| > 0
    ensures var op := Step(a, b);
      && a == a[..|a| - RefLen(op)] + RefSide([op])
      && b == b[..|b| - HypLen(op)] + HypSide([op])
      && Dist(a, b) == Dist(a[..|a| - RefLen(op)], b[..|b| - HypLen(op)]) + Cost(op)
      && (op.Substitution? ==> op.r != op.h)
  {
    StepSides(a, b);
    StepDist(a, b);
  }

  lemma StepDist<T>(a: seq<T>, b: seq<T>)
    requires |a| > 0 || |b| > 0
    ensures var op := Step(a, b);
      && Dist(a, b) == Dist(a[..|a| - RefLen(op)], b[..|b| - HypLen(op)]) + Cost(op)
      && (op.Substitution? ==> op.r != op.h)
  {
    if |a| == 0 {
      assert Step(a, b) == Insertion(b[|b| - 1]);
      assert a[..|a| - 0] == a;
    } else if |b| == 0 {
      assert Step(a, b) == Deletion(a[|a| - 1]);
      assert b[..|b| - 0] == b;
    } else {
      var a', b' := a[..|a| - 1], b[..|b| - 1];
      var dd, du, dl := Dist(a', b'), Dist(a', b), Dist(a, b');
      var d := Dist(a, b);
      assert d == if a[|a| - 1] == b[|b| - 1] then dd else 1 + Min3(dd, du, dl);
      var op := Step(a, b);
      if a[|a| - 1] == b[|b| - 1] {
        assert op == Hit(a[|a| - 1]);
        assert d == Dist(a[..|a| - 1], b[..|b| - 1]) + 0;
      } else if d == dd + 1 {
        assert op == Substitution(a[|a| - 1], b[|b| - 1]);
        assert d == Dist(a[..|a| - 1], b[..|b| - 1]) + 1;
      } else if d == du + 1 {
        assert op == Deletion(a[|a| - 1]);
        assert d == Dist(a[..|a| - 1], b[..|b| - 0]) + 1 by { assert b[..|b| - 0] == b; }
      } else {
        assert op == Insertion(b[|b| - 1]);
        assert d == Dist(a[..|a| - 0], b[..|b| - 1]) + 1 by { assert a[..|a| - 0] == a; }
      }
    }
  }

  /** Which units the step consumes. */
  lemma StepSides<T>(a: seq<T>, b: seq<T>)
    requires |a| > 0 || |b| > 0
    ensures var op := Step(a, b);
      && a == a[..|a| - RefLen(op)] + RefSide([op])
      && b == b[..|b| - HypLen(op)] + HypSide([op])
  {
    StepRefSide(a, b);
    StepHypSide(a, b);
  }

  lemma StepRefSide<T>(a: seq<T>, b: seq<T>)
    requires |a| > 0 || |b| > 0
    ensures var op := Step(a, b); a == a[..|a| - RefLen(op)] + RefSide([op])
  {
    var op := Step(a, b);
    assert [op][..0] == [];
    if RefLen(op) == 1 {
      assert RefSide([op]) == [a[|a| - 1]];
      assert a == a[..|a| - 1] + [a[|a| - 1]];
    } else {
      assert RefSide([op]) == [];
      assert a[..|a|] == a;
    }
  }

  lemma StepHypSide<T>(a: seq<T>, b: seq<T>)
    requires |a| > 0 || |b| > 0
    ensures var op := Step(a, b); b == b[..|b| - HypLen(op)] + HypSide([op])
  {
    var op := Step(a, b);
    assert [op][..0] == [];
    if HypLen(op) == 1 {
      assert HypSide([op]) == [b[|b| - 1]];
      assert b == b[..|b| - 1] + [b[|b| - 1]];
    } else {
      assert HypSide([op]) == [];
      assert b[..|b|] == b;
    }
  }

  /** The backtrack is an alignment of its inputs whose cost is the table's value. */
  lemma {:induction false} TraceCorrect<T>(a: seq<T>, b: seq<T>)
    ensures IsAlignment(Trace(a, b), a, b)
    ensures Errors(Trace(a, b)) == Dist(a, b)
    ensures WellFormed(Trace(a, b))
    decreases |a| + |b|
  {
    if |a| > 0 || |b| > 0 {
      var op := Step(a, b);
      var a', b' := a[..|a| - RefLen(op)], b[..|b| - HypLen(op)];
      TraceCorrect(a', b');
      StepSound(a, b);
      ExtendAlignment(Trace(a', b'), op, a', b');
    }
  }

  /** Appending one reference unit costs at most one more edit. */
  lemma {:induction false} DistDiag<T>(a: seq<T>, b: seq<T>, x: T, y: T)
    ensures Dist(a + [x], b + [y]) <= Dist(a, b) + 1
  {
    assert (a + [x])[..|a|] == a;
    assert (b + [y])[..|b|] == b;
  }

  lemma {:induction false} DistAddRef<T>(a: seq<T>, x: T, b: seq<T>)
    ensures Dist(a + [x], b) <= Dist(a, b) + 1
    decreases |a| + |b|, 1
  {
    var ax := a + [x];
    assert ax[..|a|] == a;
    if |b| > 0 {
      var b', y := b[..|b| - 1], b[|b| - 1];
      if x == y {
        assert Dist(ax, b) == Dist(a, b');
        DistDropHyp(a, b', y);
        assert b' + [y] == b;
      }
    }
  }

  lemma {:induction false} DistDropHyp<T>(a: seq<T>, b: seq<T>, y: T)
    ensures Dist(a, b) <= Dist(a, b + [y]) + 1
    decreases |a| + |b|, 0
  {
    var bY := b + [y];
    assert bY[..|b|] == b;
    if |a| > 0 {
      var a', x := a[..|a| - 1], a[|a| - 1];
      assert a' + [x] == a;
      DistAddRef(a', x, b);
      if x != y {
        DistDropHyp(a', b, y);
      }
    }
  }

  lemma {:induction false} DistSymmetric<T>(a: seq<T>, b: seq<T>)
    ensures Dist(a, b) == Dist(b, a)
    decreases |a| + |b|
  {
    if |a| > 0 && |b| > 0 {
      var a', b' := a[..|a| - 1], b[..|b| - 1];
      DistSymmetric(a', b');
      DistSymmetric(a', b);
      DistSymmetric(a, b');
    }
  }

  lemma DistAddHyp<T>(a: seq<T>, b: seq<T>, y: T)
    ensures Dist(a, b + [y]) <= Dist(a, b) + 1
  {
    DistAddRef(b, y, a);
    DistSymmetric(a, b + [y]);
    DistSymmetric(a, b);
  }

  /** No alignment is cheaper than the table's value: `Dist` is the minimum edit distance. */
  lemma {:induction false} DistMinimal<T>(ops: seq<EditOp<T>>, a: seq<T>, b: seq<T>)
    requires IsAlignment(ops, a, b)
    ensures Dist(a, b) <= Errors(ops)
    decreases |ops|
  {
    if |ops| > 0 {
      var prev, op := ops[..|ops| - 1], ops[|ops| - 1];
      assert ops == prev + [op];
      AppendCounts(prev, op);
      var a', b' := RefSide(prev), HypSide(prev);
      DistMinimal(prev, a', b');
      match op
      case Hit(r) =>
        assert a == a' + [r] && b == b' + [r];
        assert a[..|a| - 1] == a' && b[..|b| - 1] == b';
      case Substitution(r, h) =>
        DistDiag(a', b', r, h);
      case Deletion(r) =>
        DistAddRef(a', r, b');
      case Insertion(h) =>
        DistAddHyp(a', b', h);
    }
  }

  /** Any two minimum-cost alignments have the same error count, which is the edit distance. */
  lemma TraceIsOptimal<T>(a: seq<T>, b: seq<T>, ops: seq<EditOp<T>>)
    requires IsAlignment(ops, a, b)
    ensures Errors(Trace(a, b)) <= Errors(ops)
  {
    TraceCorrect(a, b);
    DistMinimal(ops, a, b);
  }

  /** Zero distance exactly for identical sequences. */
  lemma {:induction false} DistZeroIffEqual<T>(a: seq<T>, b: seq<T>)
    ensures Dist(a, b) == 0 <==> a == b
    decreases |a| + |b|
  {
    if |a| > 0 && |b| > 0 {
      var a', b' := a[..|a| - 1], b[..|b| - 1];
      DistZeroIffEqual(a', b');
      assert a == a' + [a[|a| - 1]];
      assert b == b' + [b[|b| - 1]];
    }
  }

  /** The distance lies between the length difference and the longer length. */
  lemma {:induction false} DistBounds<T>(a: seq<T>, b: seq<T>)
    ensures |a| - |b| <= Dist(a, b) && |b| - |a| <= Dist(a, b)
    ensures Dist(a, b) <= if |a| >= |b| then |a| else |b|
    decreases |a| + |b|
  {
    if |a| > 0 && |b| > 0 {
      DistBounds(a[..|a| - 1], b[..|b| - 1]);
    }
    TraceCorrect(a, b);
    CountIdentities(Trace(a, b));
  }

  /** For identical inputs the backtrack is all hits. */
  lemma {:induction false} TraceOfEqual<T>(a: seq<T>)
    ensures Hits(Trace(a, a)) == |a|
    ensures Errors(Trace(a, a)) == 0
  {
    TraceCorrect(a, a);
    DistZeroIffEqual(a, a);
    CountIdentities(Trace(a, a));
  }

  /** Against an empty side the backtrack is all insertions, or all deletions. */
  lemma {:induction false} TraceAgainstEmpty<T>(a: seq<T>, b: seq<T>)
    requires |a| == 0 || |b| == 0
    ensures Trace(a, b) == if |a| == 0 then seq(|b|, k requires 0 <= k < |b| => Insertion(b[k]))
                           else seq(|a|, k requires 0 <= k < |a| => Deletion(a[k]))
    decreases |a| + |b|
  {
    if |a| == 0 && |b| > 0 {
      TraceAgainstEmpty(a, b[..|b| - 1]);
    } else if |b| == 0 && |a| > 0 {
      TraceAgainstEmpty(a[..|a| - 1], b);
    }
  }

  /** Minimum-cost alignments need not agree on the individual counts: for
      "ab" against "ba", two substitutions and a deletion-hit-insertion both
      cost 2. Only the error total is fixed. */
  lemma CountsDependOnAlignment()
    ensures var a, b := ['a', 'b'], ['b', 'a'];
      var one := [Substitution('a', 'b'), Substitution('b', 'a')];
      var two := [Deletion('a'), Hit('b'), Insertion('a')];
      && IsAlignment(one, a, b) && IsAlignment(two, a, b)
      && WellFormed(one) && WellFormed(two)
      && Errors(one) == Dist(a, b) == Errors(two)
      && Substitutions(one) != Substitutions(two)
  {
    SwapDist();
    SwapBySubstitutions();
    SwapByShift();
  }

  lemma SwapDist()
    ensures Dist(['a', 'b'], ['b', 'a']) == 2
  {
    assert ['a', 'b'][..1] == ['a'] && ['b', 'a'][..1] == ['b'];
    assert ['a'][..0] == [] && ['b'][..0] == [];
    assert Dist(['a'], ['b']) == 1;
    assert Dist(['a'], ['b', 'a']) == 1;
    assert Dist(['a', 'b'], ['b']) == 1;
  }

  lemma SwapBySubstitutions()
    ensures var one := [Substitution('a', 'b'), Substitution('b', 'a')];
      IsAlignment(one, ['a', 'b'], ['b', 'a']) && WellFormed(one) && Errors(one) == 2 && Substitutions(one) == 2
  {
    var one := [Substitution('a', 'b'), Substitution('b', 'a')];
    AppendCounts([Substitution('a', 'b')], Substitution('b', 'a'));
    assert [Substitution('a', 'b')] + [Substitution('b', 'a')] == one;
  }

  lemma SwapByShift()
    ensures var two := [Deletion('a'), Hit('b'), Insertion('a')];
      IsAlignment(two, ['a', 'b'], ['b', 'a']) && WellFormed(two) && Errors(two) == 2 && Substitutions(two) == 0
  {
    var two := [Deletion('a'), Hit('b'), Insertion('a')];
    AppendCounts([Deletion('a')], Hit('b'));
    AppendCounts([Deletion('a'), Hit('b')], Insertion('a'));
    assert [Deletion('a')] + [Hit('b')] == two[..2];
    assert two[..2] + [Insertion('a')] == two;
  }

  /** A shared last unit costs nothing. */
  lemma DistCommonLast<T>(a: seq<T>, b: seq<T>, x: T)
    ensures Dist(a + [x], b + [x]) == Dist(a, b)
  {
    assert (a + [x])[..|a|] == a && (b + [x])[..|b|] == b;
  }

  /** Unequal second units after a shared first one: one edit apart. */
  lemma DistOneSubstitution<T>(x: T, y: T, z: T)
    requires y != z
    ensures Dist([x, y], [x, z]) == 1
  {
    assert [x, y][..1] == [x] && [x, z][..1] == [x];
    DistCommonLast([], [], x);
    assert Dist([x], [x]) == 0;
  }

  /** A second reference unit the hypothesis lacks: one deletion. */
  lemma DistOneDeletion<T>(x: T, y: T)
    ensures Dist([x, y], [x]) == 1
  {
    assert [x, y][..1] == [x] && [x][..0] == [];
    DistCommonLast([], [], x);
    assert Dist([x], [x]) == 0;
    assert Dist([x], []) == 1;
  }

  /** A second hypothesis unit the reference lacks: one insertion. */
  lemma DistOneInsertion<T>(x: T, y: T)
    ensures Dist([x], [x, y]) == 1
  {
    DistOneDeletion(x, y);
    DistSymmetric([x], [x, y]);
  }

  /** Sequences that differ in one position only are one substitution apart. */
  lemma {:induction false} DistOnePosition<T>(p: seq<T>, c: T, d: T, q: seq<T>)
    requires c != d
    ensures Dist(p + [c] + q, p + [d] + q) == 1
    decreases |q|
  {
    if |q| == 0 {
      assert p + [c] + q == p + [c] && p + [d] + q == p + [d];
      assert (p + [c])[..|p|] == p && (p + [d])[..|p|] == p;
      DistZeroIffEqual(p, p);
    } else {
      var q' := q[..|q| - 1];
      DistOnePosition(p, c, d, q');
      assert p + [c] + q == (p + [c] + q') + [q[|q| - 1]];
      assert p + [d] + q == (p + [d] + q') + [q[|q| - 1]];
      DistCommonLast(p + [c] + q', p + [d] + q', q[|q| - 1]);
    }
  }
}
