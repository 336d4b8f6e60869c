/**
 * The augmented matrix: shape, the two echelon forms, the solution set, and the
 * in-place row operations `SumRows` and `ScaleRow`.
 */
module Matrix {
  import opened Rows

  /** Every row has exactly w entries. */
  predicate IsMatrix(m: seq<Row>, w: nat) {
    forall i :: 0 <= i < |m| ==> |m[i]| == w
  }

  /** x satisfies every equation of m. */
  predicate SatisfiesAll(m: seq<Row>, x: seq<real>) {
    forall i :: 0 <= i < |m| ==> Satisfies(m[i], x)
  }

  /** a and b have the same solution set. */
  ghost predicate SameSolutions(a: seq<Row>, b: seq<Row>) {
    forall x :: SatisfiesAll(a, x) <==> SatisfiesAll(b, x)
  }

  /**
   * Staircase form: a row below a non-zero row is either all zero or has its pivot
   * strictly further right, so all-zero rows are at the bottom.
   */
  predicate Echelon(m: seq<Row>) {
    forall i, j :: 0 <= i < j < |m| && HasPivot(m[j]) ==> FirstNonZero(m[i]) < FirstNonZero(m[j])
  }

  /**
   * Rows from i on are reduced: each such non-zero row has 1 at its pivot, and its
   * pivot column is zero in every other row of the matrix.
   */
  predicate ReducedFrom(m: seq<Row>, i: nat, w: nat) {
    && IsMatrix(m, w)
    && (forall k :: i <= k < |m| && HasPivot(m[k]) ==> m[k][FirstNonZero(m[k])] == 1.0)
    && (forall k, l :: i <= k < |m| && 0 <= l < |m| && l != k && HasPivot(m[k]) ==>
          m[l][FirstNonZero(m[k])] == 0.0)
  }

  /** Reduced row-echelon form. */
  predicate ReducedEchelon(m: seq<Row>, w: nat) {
    Echelon(m) && ReducedFrom(m, 0, w)
  }

  lemma SameSolutionsTrans(a: seq<Row>, b: seq<Row>, c: seq<Row>)
    requires SameSolutions(a, b) && SameSolutions(b, c)
    ensures SameSolutions(a, c)
  {
    forall x ensures SatisfiesAll(a, x) <==> SatisfiesAll(c, x) {
      assert SatisfiesAll(a, x) <==> SatisfiesAll(b, x);
    }
  }

  /** Reordering the equations does not change the solution set. */
  lemma PermutedSameSolutions(a: seq<Row>, b: seq<Row>)
    requires multiset(a) == multiset(b)
    ensures SameSolutions(a, b)
  {
    forall x ensures SatisfiesAll(a, x) <==> SatisfiesAll(b, x) {
      if SatisfiesAll(a, x) {
        forall i | 0 <= i < |b| ensures Satisfies(b[i], x) {
          assert b[i] in multiset(a);
          var k :| 0 <= k < |a| && a[k] == b[i];
        }
      }
      if SatisfiesAll(b, x) {
        forall i | 0 <= i < |a| ensures Satisfies(a[i], x) {
          assert a[i] in multiset(b);
          var k :| 0 <= k < |b| && b[k] == a[i];
        }
      }
    }
  }

  /** Replacing row r by row r plus a multiple of another row keeps the solution set. */
  lemma {:induction false} CombinedSameSolutions(m: seq<Row>, n: nat, r: nat, s: real)
    requires n < |m| && r < |m| && n != r && |m[r]| == |m[n]|
    ensures SameSolutions(m, m[r := Combined(m[r], m[n], s)])
  {
    var m' := m[r := Combined(m[r], m[n], s)];
    forall x ensures SatisfiesAll(m, x) <==> SatisfiesAll(m', x) {
      if SatisfiesAll(m, x) {
        assert Satisfies(m[n], x) && Satisfies(m[r], x);
        CombinedSatisfies(m[r], m[n], s, x);
        assert forall i :: 0 <= i < |m'| ==> Satisfies(m'[i], x);
      }
      if SatisfiesAll(m', x) {
        assert m'[n] == m[n];
        assert Satisfies(m'[n], x) && Satisfies(m'[r], x);
        CombinedSatisfies(m[r], m[n], s, x);
        assert forall i :: 0 <= i < |m| ==> Satisfies(m[i], x) by {
          forall i | 0 <= i < |m| ensures Satisfies(m[i], x) {
            if i != r { assert m[i] == m'[i]; }
          }
        }
      }
    }
  }

  /** Scaling one row by a non-zero value keeps the solution set. */
  lemma {:induction false} ScaledSameSolutions(m: seq<Row>, n: nat, s: real)
    requires n < |m| && s != 0.0
    ensures SameSolutions(m, m[n := Scaled(m[n], s)])
  {
    var m' := m[n := Scaled(m[n], s)];
    forall x ensures SatisfiesAll(m, x) <==> SatisfiesAll(m', x) {
      ScaledSatisfies(m[n], s, x);
      assert SatisfiesAll(m, x) <==> SatisfiesAll(m', x) by {
        assert forall i :: 0 <= i < |m| && i != n ==> m'[i] == m[i];
      }
    }
  }

  /** Rows below a non-zero row of an echelon matrix are zero in its pivot column. */
  lemma EchelonZeroBelowPivot(m: seq<Row>, w: nat, i: nat, j: nat)
    requires IsMatrix(m, w) && Echelon(m)
    requires i < j < |m| && HasPivot(m[i])
    ensures m[j][FirstNonZero(m[i])] == 0.0
  {
    FirstNonZeroIsFirst(m[j]);
    if HasPivot(m[j]) {
      assert FirstNonZero(m[i]) < FirstNonZero(m[j]);
    } else {
      assert IsZeroRow(m[j]);
    }
  }

  /**
   * Row r becomes row r plus s times row n; nothing else changes. When the two
   * rows differ, the solution set is kept.
   */
  method SumRows(system: array<Row>, n: nat, s: real, r: nat)
    requires n < system.Length && r < system.Length
    requires |system[r]| <= |system[n]|
    modifies system
    ensures |system[r]| == old(|system[r]|)
    ensures forall k :: 0 <= k < |system[r]| ==> system[r][k] == old(system[r][k]) + s * old(system[n][k])
    ensures forall i :: 0 <= i < system.Length && i != r ==> system[i] == old(system[i])
    ensures system[..] == old(system[..])[r := Combined(old(system[r]), old(system[n]), s)]
    ensures n != r && old(|system[r]| == |system[n]|) ==> SameSolutions(old(system[..]), system[..])
  {
    ghost var before := system[..];
    var row := system[n];
    var scaledRow := seq(|row|, k requires 0 <= k < |row| => s * row[k]);
    var rowRes := system[r];
    var newRowRes := seq(|rowRes|, k requires 0 <= k < |rowRes| => rowRes[k] + scaledRow[k]);
    assert newRowRes == Combined(rowRes, row, s);
    system[r] := newRowRes;
    assert system[..] == before[r := Combined(before[r], before[n], s)];
    if n != r && |before[r]| == |before[n]| {
      CombinedSameSolutions(before, n, r, s);
    }
  }

  /**
   * Row n becomes s times row n; nothing else changes. For a non-zero s the solution
   * set is kept.
   */
  method ScaleRow(system: array<Row>, n: nat, s: real)
    requires n < system.Length
    modifies system
    ensures |system[n]| == old(|system[n]|)
    ensures forall k :: 0 <= k < |system[n]| ==> system[n][k] == s * old(system[n][k])
    ensures forall i :: 0 <= i < system.Length && i != n ==> system[i] == old(system[i])
    ensures system[..] == old(system[..])[n := Scaled(old(system[n]), s)]
    ensures s != 0.0 ==> SameSolutions(old(system[..]), system[..])
  {
    ghost var before := system[..];
    var row := system[n];
    var scaledRow := seq(|row|, k requires 0 <= k < |row| => s * row[k]);
    system[n] := scaledRow;
    assert system[..] == before[n := Scaled(before[n], s)];
    if s != 0.0 {
      ScaledSameSolutions(before, n, s);
    }
  }
}
