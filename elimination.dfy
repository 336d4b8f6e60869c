/**
 * Gauss–Jordan elimination in place: the forward pass to row-echelon form and the
 * backward pass to reduced row-echelon form. Both only add a multiple of one row to
 * a different row, scale a row by a non-zero value, or reorder rows, so the solution
 * set of the system is kept.
 */
module Elimination {
  import opened Rows
  import opened Matrix
  import opened Sorting

  /**
   * Forward-pass progress: each of the first i rows has its pivot strictly left of
   * the pivot of every row below it.
   */
  predicate FinishedAbove(m: seq<Row>, i: nat) {
    forall k, l :: 0 <= k < l < |m| && k < i ==> FirstNonZero(m[k]) < FirstNonZero(m[l])
  }

  lemma FinishedSplit(s: seq<Row>, i: nat)
    requires i <= |s| && FinishedAbove(s, i)
    ensures SortedByPivot(s[..i])
    ensures forall a, b :: 0 <= a < |s[..i]| && 0 <= b < |s[i..]| ==>
      FirstNonZero(s[..i][a]) <= FirstNonZero(s[i..][b])
  {
    forall a, b | 0 <= a < |s[..i]| && 0 <= b < |s[i..]|
      ensures FirstNonZero(s[..i][a]) <= FirstNonZero(s[i..][b])
    {
      assert s[..i][a] == s[a] && s[i..][b] == s[i + b];
    }
    forall a, b | 0 <= a < b < |s[..i]| ensures FirstNonZero(s[..i][a]) <= FirstNonZero(s[..i][b]) {
      assert s[..i][a] == s[a] && s[..i][b] == s[b];
    }
  }

  /** Reordering the rows after the first |p| keeps the shape and the finished rows. */
  lemma PermuteTail(p: seq<Row>, q: seq<Row>, u: seq<Row>, w: nat)
    requires multiset(u) == multiset(q)
    requires IsMatrix(p + q, w) && FinishedAbove(p + q, |p|)
    ensures IsMatrix(p + u, w) && FinishedAbove(p + u, |p|)
  {
    var s, t := p + q, p + u;
    assert |u| == |q| by {
      assert |multiset(u)| == |multiset(q)|;
    }
    forall l | |p| <= l < |t| ensures exists b :: |p| <= b < |s| && s[b] == t[l] {
      assert t[l] == u[l - |p|];
      assert t[l] in multiset(q);
      var c :| 0 <= c < |q| && q[c] == t[l];
      assert s[|p| + c] == t[l];
    }
    forall l | 0 <= l < |t| ensures |t[l]| == w {
      if l < |p| {
        assert t[l] == s[l];
      } else {
        var b :| |p| <= b < |s| && s[b] == t[l];
      }
    }
    forall k, l | 0 <= k < l < |t| && k < |p| ensures FirstNonZero(t[k]) < FirstNonZero(t[l]) {
      assert t[k] == s[k];
      if l < |p| {
        assert t[l] == s[l];
      } else {
        var b :| |p| <= b < |s| && s[b] == t[l];
        assert FirstNonZero(s[k]) < FirstNonZero(s[b]);
      }
    }
  }

  /** Sorting at the top of a forward step leaves the finished rows where they are. */
  lemma SortAfterFinishedRows(s: seq<Row>, i: nat, w: nat)
    requires i <= |s| && IsMatrix(s, w) && FinishedAbove(s, i)
    ensures |SortByPivot(s)| == |s|
    ensures SortByPivot(s)[..i] == s[..i]
    ensures IsMatrix(SortByPivot(s), w)
    ensures FinishedAbove(SortByPivot(s), i)
    ensures SortedByPivot(SortByPivot(s))
    ensures multiset(SortByPivot(s)) == multiset(s)
  {
    var p, q := s[..i], s[i..];
    assert s == p + q;
    FinishedSplit(s, i);
    SortKeepsPrefix(p, q);
    SortByPivotSortedPermutation(q);
    SortByPivotSortedPermutation(s);
    PermuteTail(p, q, SortByPivot(q), w);
  }

  /** Row i of a sorted matrix is all zero: then so is every row below it, and the matrix is in echelon form. */
  lemma ZeroRowEndsEchelon(m: seq<Row>, i: nat, w: nat)
    requires i < |m| && IsMatrix(m, w) && SortedByPivot(m) && FinishedAbove(m, i)
    requires !HasPivot(m[i])
    ensures Echelon(m)
  {
    forall k, l | 0 <= k < l < |m| && HasPivot(m[l])
      ensures FirstNonZero(m[k]) < FirstNonZero(m[l])
    {
    }
  }

  /** When every row but the last is finished, the matrix is in echelon form, hence sorted. */
  lemma FinishedIsEchelon(m: seq<Row>, w: nat)
    requires |m| > 0 && IsMatrix(m, w) && FinishedAbove(m, |m| - 1)
    ensures Echelon(m) && SortedByPivot(m)
  {
    EchelonIsSorted(m, w);
  }

  /** With rows of one width, echelon form is sorted by pivot column. */
  lemma EchelonIsSorted(m: seq<Row>, w: nat)
    requires IsMatrix(m, w) && Echelon(m)
    ensures SortedByPivot(m)
  {
    forall k, l | 0 <= k < l < |m| ensures FirstNonZero(m[k]) <= FirstNonZero(m[l]) {
      assert |m[k]| == w && |m[l]| == w;
    }
  }

  /** Once the pivot column of row i is cleared below it, row i is finished too. */
  lemma FinishStep(sorted: seq<Row>, m: seq<Row>, i: nat)
    requires i < |m| == |sorted| && FinishedAbove(sorted, i)
    requires forall k :: 0 <= k <= i ==> m[k] == sorted[k]
    requires forall k :: i < k < |m| ==> FirstNonZero(m[k]) > FirstNonZero(sorted[i])
    ensures FinishedAbove(m, i + 1)
  {
    forall k, l | 0 <= k < l < |m| && k < i + 1
      ensures FirstNonZero(m[k]) < FirstNonZero(m[l])
    {
      if k < i && l > i {
        assert FirstNonZero(sorted[k]) < FirstNonZero(sorted[i]);
      }
    }
  }

  /**
   * One row of the forward elimination: left as it is when its entry in column c is
   * zero, otherwise added -target[c]/pivotRow[c] times the pivot row.
   */
  function EliminatedRow(target: Row, pivotRow: Row, c: nat): Row
    requires c < |target| <= |pivotRow| && pivotRow[c] != 0.0
  {
    if target[c] == 0.0 then target else Combined(target, pivotRow, -target[c] / pivotRow[c])
  }

  /** Every row below row i eliminated against row i in column c; rows 0 .. i as they are. */
  function ClearedBelow(m: seq<Row>, i: nat, c: nat): (r: seq<Row>)
    requires i < |m| && c == FirstNonZero(m[i]) && c < |m[i]|
    requires forall l :: i < l < |m| ==> |m[l]| == |m[i]|
    ensures |r| == |m|
  {
    FirstNonZeroIsFirst(m[i]);
    seq(|m|, l requires 0 <= l < |m| => if l > i then EliminatedRow(m[l], m[i], c) else m[l])
  }

  /**
   * In echelon form the rows below a non-zero row are already zero in its pivot
   * column, so eliminating below it changes nothing.
   */
  lemma ClearedBelowEchelon(m: seq<Row>, w: nat, i: nat)
    requires IsMatrix(m, w) && Echelon(m) && i < |m| && HasPivot(m[i])
    ensures ClearedBelow(m, i, FirstNonZero(m[i])) == m
  {
    forall l | i < l < |m| ensures m[l][FirstNonZero(m[i])] == 0.0 {
      EchelonZeroBelowPivot(m, w, i, l);
    }
  }

  /**
   * The inner loop of the forward step: clears column `column`, the pivot column of
   * row i, in every row below row i.
   */
  method EliminateBelow(system: array<Row>, i: nat, column: nat, ghost columns: nat)
    requires i < system.Length && IsMatrix(system[..], columns)
    requires column < columns && FirstNonZero(system[i]) == column
    modifies system
    ensures system[..] == ClearedBelow(old(system[..]), i, column)
    ensures IsMatrix(system[..], columns)
    ensures SameSolutions(old(system[..]), system[..])
  {
    ghost var orig := system[..];
    var row := system[i];
    FirstNonZeroIsFirst(row);
    var elem := row[column];
    for j := i + 1 to system.Length
      invariant IsMatrix(system[..], columns)
      invariant SameSolutions(orig, system[..])
      invariant forall k :: 0 <= k <= i || j <= k < system.Length ==> system[k] == orig[k]
      invariant forall k :: i < k < j ==> system[k] == EliminatedRow(orig[k], row, column)
    {
      var rowNext := system[j];
      var elemNext := rowNext[column];
      if elemNext == 0.0 {
        continue;
      }
      var scalar := -elemNext / elem;
      ghost var b := system[..];
      SumRows(system, i, scalar, j);
      SameSolutionsTrans(orig, b, system[..]);
    }
    assert system[..] == ClearedBelow(orig, i, column);
  }

  /**
   * Eliminating against a row with pivot c moves the pivot of a row whose pivot is at
   * c or later strictly past c.
   */
  lemma EliminatedRowPivot(target: Row, pivotRow: Row, c: nat)
    requires |target| == |pivotRow|
    requires FirstNonZero(pivotRow) == c && c < |pivotRow| && pivotRow[c] != 0.0
    requires FirstNonZero(target) >= c
    ensures FirstNonZero(EliminatedRow(target, pivotRow, c)) > c
  {
    if target[c] == 0.0 {
      FirstNonZeroIsFirst(target);
    } else {
      EliminationClearsColumn(target, pivotRow, c);
    }
  }

  /**
   * After clearing the pivot column of row i below it, rows 0 .. i are finished: every
   * lower row has its pivot strictly further right.
   */
  lemma ClearedBelowFinishes(m: seq<Row>, w: nat, i: nat)
    requires IsMatrix(m, w) && i < |m| && FinishedAbove(m, i) && HasPivot(m[i])
    requires forall k :: i < k < |m| ==> FirstNonZero(m[k]) >= FirstNonZero(m[i])
    ensures FinishedAbove(ClearedBelow(m, i, FirstNonZero(m[i])), i + 1)
  {
    var c := FirstNonZero(m[i]);
    var r := ClearedBelow(m, i, c);
    FirstNonZeroIsFirst(m[i]);
    forall k | i < k < |m| ensures FirstNonZero(r[k]) > c {
      EliminatedRowPivot(m[k], m[i], c);
    }
    FinishStep(m, r, i);
  }

  /**
   * One pass of the forward loop over row i: sort the rows, find the pivot of row i,
   * and either report that row i is all zero or clear its pivot column below it.
   */
  method ForwardStep(system: array<Row>, i: nat, columns: nat) returns (zeroRow: bool, ghost sorted: seq<Row>)
    requires i < system.Length && IsMatrix(system[..], columns) && FinishedAbove(system[..], i)
    modifies system
    ensures sorted == SortByPivot(old(system[..])) && |sorted| == system.Length && IsMatrix(sorted, columns)
    ensures zeroRow <==> !HasPivot(sorted[i])
    ensures zeroRow ==> system[..] == sorted
    ensures !zeroRow ==>
      FirstNonZero(sorted[i]) < columns && system[..] == ClearedBelow(sorted, i, FirstNonZero(sorted[i]))
    ensures IsMatrix(system[..], columns)
    ensures SameSolutions(old(system[..]), system[..])
    ensures zeroRow ==> Echelon(system[..])
    ensures !zeroRow ==> FinishedAbove(system[..], i + 1)
    ensures Echelon(old(system[..])) ==> system[..] == old(system[..])
  {
    ghost var before := system[..];
    if Echelon(before) {
      EchelonIsSorted(before, columns);
      SortByPivotIdempotent(before);
    }
    SortRows(system);
    SortAfterFinishedRows(before, i, columns);
    PermutedSameSolutions(before, system[..]);
    sorted := system[..];
    var row := system[i];
    var column := FindNonzeroElement(row);
    if column > columns - 1 {
      // Every row from here down is all zero.
      ZeroRowEndsEchelon(sorted, i, columns);
      zeroRow := true;
      return;
    }
    if Echelon(before) {
      assert sorted == before;
      ClearedBelowEchelon(sorted, columns, i);
    }
    ClearedBelowFinishes(sorted, columns, i);
    EliminateBelow(system, i, column, columns);
    SameSolutionsTrans(before, sorted, system[..]);
    zeroRow := false;
  }

  /**
   * The source's row_echelon: repeatedly sort the rows by pivot column and clear the
   * pivot column of row i in every row below it; stop early at an all-zero row.
   * A matrix already in echelon form is left as it is.
   */
  method RowEchelon(system: array<Row>)
    requires system.Length > 0 && IsMatrix(system[..], |system[0]|)
    modifies system
    ensures IsMatrix(system[..], old(|system[0]|))
    ensures Echelon(system[..])
    ensures SameSolutions(old(system[..]), system[..])
    ensures Echelon(old(system[..])) ==> system[..] == old(system[..])
  {
    var rowAmount := system.Length;
    var columns := |system[0]|;
    ghost var orig := system[..];
    ghost var idle := Echelon(orig);
    ghost var stopped := false;
    for i := 0 to rowAmount - 1
      invariant IsMatrix(system[..], columns)
      invariant SameSolutions(orig, system[..])
      invariant FinishedAbove(system[..], i)
      invariant idle ==> system[..] == orig
      invariant !stopped
    {
      ghost var before := system[..];
      var zeroRow, sortedStep := ForwardStep(system, i, columns);
      SameSolutionsTrans(orig, before, system[..]);
      if zeroRow {
        stopped := true;
        break;
      }
    }
    if !stopped {
      FinishedIsEchelon(system[..], columns);
    }
    EchelonIsSorted(system[..], columns);
    ghost var before := system[..];
    SortRows(system);
    SortByPivotIdempotent(before);
  }

  /** Adding zero times a row changes nothing. */
  lemma CombinedByZero(target: Row, source: Row)
    requires |target| <= |source|
    ensures Combined(target, source, 0.0) == target
  {
  }

  /** Row scaled so that its pivot entry becomes 1. */
  function Normalized(row: Row): (r: Row)
    requires HasPivot(row)
  {
    FirstNonZeroIsFirst(row);
    Scaled(row, 1.0 / row[FirstNonZero(row)])
  }

  /**
   * Scaling a non-zero row by the inverse of its pivot entry keeps its width and its
   * pivot column and makes the pivot entry 1.
   */
  lemma NormalizedPivot(row: Row)
    requires HasPivot(row)
    ensures |Normalized(row)| == |row|
    ensures FirstNonZero(Normalized(row)) == FirstNonZero(row)
    ensures Normalized(row)[FirstNonZero(row)] == 1.0
  {
    var c := FirstNonZero(row);
    FirstNonZeroIsFirst(row);
    ScaledKeepsPivot(row, 1.0 / row[c]);
    assert Normalized(row)[c] == (1.0 / row[c]) * row[c];
  }

  /**
   * Every row above i with `row[c]` times row i subtracted from it; rows i and below
   * as they are.
   */
  function ClearedAbove(m: seq<Row>, i: nat, c: nat): (r: seq<Row>)
    requires i < |m| && c < |m[i]|
    requires forall l :: 0 <= l < i ==> |m[l]| == |m[i]|
    ensures |r| == |m|
  {
    seq(|m|, l requires 0 <= l < |m| =>
      if l < i then Combined(m[l], m[i], -m[l][c]) else m[l])
  }

  /**
   * The inner loop of the backward step: row i has 1 at its pivot `column`; subtract
   * the right multiple of it from every row above so that their entry in `column`
   * becomes zero.
   */
  method EliminateAbove(system: array<Row>, i: nat, column: nat, ghost columns: nat)
    requires i < system.Length && IsMatrix(system[..], columns)
    requires column == FirstNonZero(system[i]) && column < columns
    requires system[i][column] == 1.0
    modifies system
    ensures system[..] == ClearedAbove(old(system[..]), i, column)
    ensures forall l :: 0 <= l < i ==> system[l][column] == 0.0
    ensures SameSolutions(old(system[..]), system[..])
  {
    ghost var orig := system[..];
    for j := i downto 0
      invariant IsMatrix(system[..], columns)
      invariant SameSolutions(orig, system[..])
      invariant forall k :: i <= k < system.Length || 0 <= k < j ==> system[k] == orig[k]
      invariant forall l :: j <= l < i ==>
        system[l] == Combined(orig[l], orig[i], -orig[l][column]) && system[l][column] == 0.0
    {
      var rowPrev := system[j];
      var elemPrev := rowPrev[column];
      if elemPrev == 0.0 {
        CombinedByZero(rowPrev, orig[i]);
        continue;
      }
      // Row i's pivot entry is 1 here, so the multiplier is just the negated entry.
      var scalar := -elemPrev;
      ghost var b := system[..];
      SumRows(system, i, scalar, j);
      SameSolutionsTrans(orig, b, system[..]);
    }
    assert system[..] == ClearedAbove(orig, i, column);
  }

  /**
   * One backward step on row i of an echelon matrix whose rows below i are reduced:
   * scaling row i to pivot 1 and clearing its pivot column above it keeps every pivot
   * column, keeps the echelon form, and leaves rows i and below reduced.
   */
  lemma BackStep(m0: seq<Row>, i: nat, w: nat)
    requires i < |m0| && Echelon(m0) && ReducedFrom(m0, i + 1, w) && HasPivot(m0[i])
    ensures
      var m1 := m0[i := Normalized(m0[i])];
      var m2 := ClearedAbove(m1, i, FirstNonZero(m0[i]));
      Echelon(m2) && ReducedFrom(m2, i, w)
  {
    NormalizedPivot(m0[i]);
    var c := FirstNonZero(m0[i]);
    var m1 := m0[i := Normalized(m0[i])];
    var m2 := ClearedAbove(m1, i, c);
    FirstNonZeroIsFirst(m0[i]);
    forall l | 0 <= l < i ensures m2[l] == Combined(m0[l], m2[i], -m0[l][c]) {
      assert m1[l] == m0[l];
    }
    BackStepRows(m0, m2, i, w);
  }

  lemma BackStepRows(m0: seq<Row>, m2: seq<Row>, i: nat, w: nat)
    requires i < |m0| && Echelon(m0) && ReducedFrom(m0, i + 1, w) && HasPivot(m0[i])
    requires m0[i][FirstNonZero(m0[i])] != 0.0
    requires |m2| == |m0|
    requires m2[i] == Scaled(m0[i], 1.0 / m0[i][FirstNonZero(m0[i])])
    requires forall k :: i < k < |m0| ==> m2[k] == m0[k]
    requires forall l :: 0 <= l < i ==> m2[l] == Combined(m0[l], m2[i], -m0[l][FirstNonZero(m0[i])])
    ensures Echelon(m2) && ReducedFrom(m2, i, w)
  {
    var c := FirstNonZero(m0[i]);
    var e := m0[i][c];
    FirstNonZeroIsFirst(m0[i]);
    ScaledKeepsPivot(m0[i], 1.0 / e);
    assert m2[i][c] == 1.0 by {
      assert m2[i][c] == (1.0 / e) * e;
    }
    forall l | 0 <= l < i
      ensures FirstNonZero(m2[l]) == FirstNonZero(m0[l]) && m2[l][c] == 0.0
    {
      assert FirstNonZero(m0[l]) < c;
      CombinedKeepsPivot(m0[l], m2[i], -m0[l][c]);
    }
    assert IsMatrix(m2, w);
    forall k, l | 0 <= k < l < |m2| && HasPivot(m2[l])
      ensures FirstNonZero(m2[k]) < FirstNonZero(m2[l])
    {
      assert HasPivot(m0[l]);
    }
    forall k, l | i <= k < |m2| && 0 <= l < |m2| && l != k && HasPivot(m2[k])
      ensures m2[l][FirstNonZero(m2[k])] == 0.0
    {
      if k == i {
        if l > i {
          EchelonZeroBelowPivot(m0, w, i, l);
        }
      } else {
        var ck := FirstNonZero(m2[k]);
        assert HasPivot(m0[k]) && m0[i][ck] == 0.0;
        assert m2[i][ck] == 0.0 by {
          assert m2[i][ck] == (1.0 / e) * m0[i][ck];
        }
        if l < i {
          assert m0[l][ck] == 0.0;
        }
      }
    }
  }

  /**
   * On a matrix already in reduced form a backward step changes nothing: the pivot
   * is already 1 and its column is already zero above it.
   */
  lemma ReducedStepIdentity(m: seq<Row>, w: nat, i: nat)
    requires ReducedEchelon(m, w) && i < |m| && HasPivot(m[i])
    ensures Normalized(m[i]) == m[i]
    ensures ClearedAbove(m, i, FirstNonZero(m[i])) == m
  {
    var c := FirstNonZero(m[i]);
    assert m[i][c] == 1.0;
    assert 1.0 / m[i][c] == 1.0;
    assert forall k :: 0 <= k < |m[i]| ==> Normalized(m[i])[k] == m[i][k];
    assert Normalized(m[i]) == m[i];
    forall l | 0 <= l < i ensures Combined(m[l], m[i], -m[l][c]) == m[l] {
      assert m[l][c] == 0.0;
      CombinedByZero(m[l], m[i]);
    }
  }

  /**
   * One pass of the backward loop over row i: unless row i is all zero, scale it so
   * that its pivot is 1 and clear its pivot column in every row above it.
   */
  method BackwardStep(system: array<Row>, i: nat, columns: nat)
    requires i < system.Length && Echelon(system[..]) && ReducedFrom(system[..], i + 1, columns)
    modifies system
    ensures Echelon(system[..]) && ReducedFrom(system[..], i, columns)
    ensures !HasPivot(old(system[i])) ==> system[..] == old(system[..])
    ensures HasPivot(old(system[i])) ==>
      system[..] == ClearedAbove(old(system[..])[i := Normalized(old(system[i]))], i, FirstNonZero(old(system[i])))
    ensures SameSolutions(old(system[..]), system[..])
    ensures ReducedEchelon(old(system[..]), columns) ==> system[..] == old(system[..])
  {
    ghost var before := system[..];
    var row := system[i];
    var column := FindNonzeroElement(row);
    if column > columns - 1 {
      // An all-zero row has no pivot to scale or clear.
      return;
    }
    if ReducedEchelon(before, columns) {
      ReducedStepIdentity(before, columns, i);
    }
    var elem := row[column];
    ScaleRow(system, i, 1.0 / elem);
    ghost var scaled := system[..];
    assert scaled == before[i := Normalized(before[i])];
    NormalizedPivot(before[i]);
    EliminateAbove(system, i, column, columns);
    SameSolutionsTrans(before, scaled, system[..]);
    BackStep(before, i, columns);
  }

  /**
   * The source's reduced_row_echelon: the forward pass, then, from the bottom row up,
   * scale each non-zero row so that its pivot is 1 and clear its pivot column in
   * every row above it. A matrix already in reduced form is left as it is.
   */
  method ReducedRowEchelon(system: array<Row>)
    requires system.Length > 0 && IsMatrix(system[..], |system[0]|)
    modifies system
    ensures ReducedEchelon(system[..], old(|system[0]|))
    ensures SameSolutions(old(system[..]), system[..])
    ensures ReducedEchelon(old(system[..]), old(|system[0]|)) ==> system[..] == old(system[..])
  {
    ghost var orig := system[..];
    ghost var idle := ReducedEchelon(orig, |orig[0]|);
    RowEchelon(system);
    var columns := |system[0]|;
    for i := system.Length downto 0
      invariant Echelon(system[..]) && ReducedFrom(system[..], i, columns)
      invariant SameSolutions(orig, system[..])
      invariant idle ==> system[..] == orig
    {
      ghost var before := system[..];
      BackwardStep(system, i, columns);
      SameSolutionsTrans(orig, before, system[..]);
    }
  }
}
