/**
 * One equation of a linear system: its coefficients followed by its constant term,
 * the pivot finder over it, the two row combinations the eliminator uses, and what
 * it means for an assignment of the variables to satisfy the equation.
 */
module Rows {

  /** Coefficients of X0 .. X(n-1), then the constant. Entries are exact reals. */
  type Row = seq<real>

  predicate IsZeroRow(row: Row) {
    forall k :: 0 <= k < |row| ==> row[k] == 0.0
  }

  /**
   * Index of the first non-zero entry of `row`, or |row| (the sentinel) when
   * every entry is zero.
   */
  function FirstNonZero(row: Row): (k: nat)
    ensures k <= |row|
  {
    if |row| == 0 then 0
    else if row[0] != 0.0 then 0
    else 1 + FirstNonZero(row[1..])
  }

  /**
   * What the pivot finder returns: every entry before it is zero, the entry at it is
   * not, and it is the sentinel |row| exactly when the row is all zero.
   */
  lemma {:induction false} FirstNonZeroIsFirst(row: Row)
    ensures forall j :: 0 <= j < FirstNonZero(row) ==> row[j] == 0.0
    ensures FirstNonZero(row) < |row| ==> row[FirstNonZero(row)] != 0.0
    ensures FirstNonZero(row) == |row| <==> IsZeroRow(row)
  {
    if |row| > 0 && row[0] == 0.0 {
      FirstNonZeroIsFirst(row[1..]);
      assert forall j :: 1 <= j < |row| ==> row[j] == row[1..][j - 1];
    }
  }

  /** The row has a pivot, i.e. it is not all zero. */
  predicate HasPivot(row: Row) {
    FirstNonZero(row) < |row|
  }

  /** The pivot finder, as the counter loop of the source. */
  method FindNonzeroElement(row: Row) returns (k: nat)
    ensures k <= |row|
    ensures forall j :: 0 <= j < k ==> row[j] == 0.0
    ensures k < |row| ==> row[k] != 0.0
    ensures k == FirstNonZero(row)
  {
    FirstNonZeroIsFirst(row);
    k := 0;
    for i := 0 to |row|
      invariant k == i
      invariant forall j :: 0 <= j < i ==> row[j] == 0.0
    {
      if row[i] != 0.0 {
        break;
      }
      k := k + 1;
    }
  }

  /** Any index with only zeros before it and a non-zero entry at it is the pivot. */
  lemma PivotAt(row: Row, c: nat)
    requires c < |row| && row[c] != 0.0
    requires forall j :: 0 <= j < c ==> row[j] == 0.0
    ensures FirstNonZero(row) == c
  {
    FirstNonZeroIsFirst(row);
  }

  /** Zeros in every column up to and including c push the pivot past c. */
  lemma PivotAfter(row: Row, c: nat)
    requires c < |row|
    requires forall j :: 0 <= j <= c ==> row[j] == 0.0
    ensures FirstNonZero(row) > c
  {
    FirstNonZeroIsFirst(row);
  }

  /** Entry-wise product s * row. */
  function Scaled(row: Row, s: real): Row {
    seq(|row|, k requires 0 <= k < |row| => s * row[k])
  }

  /** Entry-wise target + s * source, as wide as target. */
  function Combined(target: Row, source: Row, s: real): Row
    requires |target| <= |source|
  {
    seq(|target|, k requires 0 <= k < |target| => target[k] + s * source[k])
  }

  /** Scaling by a non-zero value keeps the pivot column. */
  lemma ScaledKeepsPivot(row: Row, s: real)
    requires s != 0.0
    ensures FirstNonZero(Scaled(row, s)) == FirstNonZero(row)
  {
    var r := Scaled(row, s);
    var c := FirstNonZero(row);
    FirstNonZeroIsFirst(row);
    FirstNonZeroIsFirst(r);
    forall j | 0 <= j < |r| && r[j] == 0.0
      ensures row[j] == 0.0
    {
      assert s * row[j] == 0.0;
    }
    if c < |row| {
      PivotAt(r, c);
    } else {
      assert IsZeroRow(r);
    }
  }

  /**
   * Adding a multiple of a row whose pivot lies strictly to the right of the target's
   * pivot keeps the target's pivot column.
   */
  lemma CombinedKeepsPivot(target: Row, source: Row, s: real)
    requires |target| == |source|
    requires FirstNonZero(target) < FirstNonZero(source)
    ensures FirstNonZero(Combined(target, source, s)) == FirstNonZero(target)
  {
    var c := FirstNonZero(target);
    var r := Combined(target, source, s);
    FirstNonZeroIsFirst(target);
    FirstNonZeroIsFirst(source);
    forall j | 0 <= j <= c
      ensures r[j] == target[j]
    {
      assert source[j] == 0.0;
    }
    PivotAt(r, c);
  }

  /**
   * Forward elimination step: adding -target[c]/pivotRow[c] times a row whose pivot
   * is c to a row whose pivot is at c or later clears every column up to c.
   */
  lemma EliminationClearsColumn(target: Row, pivotRow: Row, c: nat)
    requires |target| == |pivotRow|
    requires FirstNonZero(pivotRow) == c && c < |pivotRow|
    requires FirstNonZero(target) >= c
    requires pivotRow[c] != 0.0
    ensures FirstNonZero(Combined(target, pivotRow, -target[c] / pivotRow[c])) > c
  {
    FirstNonZeroIsFirst(target);
    FirstNonZeroIsFirst(pivotRow);
    var s := -target[c] / pivotRow[c];
    var r := Combined(target, pivotRow, s);
    assert r[c] == target[c] + s * pivotRow[c];
    assert s * pivotRow[c] == -target[c];
    PivotAfter(r, c);
  }

  /** Sum of row[k] * x[k] over the first n columns. */
  function Dot(row: Row, x: seq<real>, n: nat): real
    requires n <= |row| && n <= |x|
  {
    if n == 0 then 0.0 else Dot(row, x, n - 1) + row[n - 1] * x[n - 1]
  }

  /**
   * The assignment x (one value per variable) satisfies the equation: the
   * coefficients times x add up to the constant.
   */
  predicate Satisfies(row: Row, x: seq<real>) {
    |row| == |x| + 1 && Dot(row, x, |x|) == row[|x|]
  }

  lemma {:induction false} DotScaled(row: Row, s: real, x: seq<real>, n: nat)
    requires n <= |row| && n <= |x|
    ensures Dot(Scaled(row, s), x, n) == s * Dot(row, x, n)
  {
    if n > 0 {
      DotScaled(row, s, x, n - 1);
      assert (s * row[n - 1]) * x[n - 1] == s * (row[n - 1] * x[n - 1]);
    }
  }

  lemma {:induction false} DotCombined(target: Row, source: Row, s: real, x: seq<real>, n: nat)
    requires |target| <= |source| && n <= |target| && n <= |x|
    ensures Dot(Combined(target, source, s), x, n) == Dot(target, x, n) + s * Dot(source, x, n)
  {
    if n > 0 {
      DotCombined(target, source, s, x, n - 1);
      assert (target[n - 1] + s * source[n - 1]) * x[n - 1]
          == target[n - 1] * x[n - 1] + s * (source[n - 1] * x[n - 1]);
    }
  }

  /** Scaling an equation by a non-zero value does not change which assignments satisfy it. */
  lemma ScaledSatisfies(row: Row, s: real, x: seq<real>)
    requires s != 0.0
    ensures Satisfies(Scaled(row, s), x) <==> Satisfies(row, x)
  {
    if |row| == |x| + 1 {
      DotScaled(row, s, x, |x|);
      var r := Scaled(row, s);
      assert r[|x|] == s * row[|x|];
      if Satisfies(r, x) {
        assert s * Dot(row, x, |x|) == s * row[|x|];
      }
    }
  }

  /**
   * Where both equations hold, their combination holds; where the source and the
   * combination hold, the target holds.
   */
  lemma CombinedSatisfies(target: Row, source: Row, s: real, x: seq<real>)
    requires |target| == |source|
    requires Satisfies(source, x)
    ensures Satisfies(Combined(target, source, s), x) <==> Satisfies(target, x)
  {
    DotCombined(target, source, s, x, |x|);
  }
}
