/**
 * The solver's entry points: validation of the input system, and solving it by
 * bringing it to reduced row-echelon form and reading the solution set off the
 * rows from the bottom up.
 *
 * The solution set is one value per variable X0 .. X(n-1): either the variable is
 * free, or it equals a constant plus a linear combination of other variables. The
 * source renders these as strings such as "X1" and "-2*X2+3"; here they are the
 * structures `Free` and `Expr` they are printed from.
 */
module Solver {
  import opened Rows
  import opened Matrix
  import opened Elimination

  /** The reasons the validator rejects a system. */
  datatype SystemError =
    | NoEquations         // the system has no equation
    | TooFewCoefficients  // the first equation has fewer than 2 entries
    | UnequalLengths      // some equation differs in length from the first

  datatype Outcome = Pass | Fail(error: SystemError)

  /**
   * The validator: the checks run in order, and the first that fails names the
   * error. A system passes exactly when it has an equation and every equation has
   * the same number w >= 2 of entries.
   */
  function AssertSystem(system: seq<Row>): (r: Outcome)
    ensures r == Pass <==> |system| > 0 && exists w :: w >= 2 && IsMatrix(system, w)
    ensures r == Fail(NoEquations) <==> |system| == 0
    ensures r == Fail(TooFewCoefficients) <==> |system| > 0 && |system[0]| < 2
    ensures r == Fail(UnequalLengths) <==>
      |system| > 0 && |system[0]| >= 2 && exists i :: 0 <= i < |system| && |system[i]| != |system[0]|
  {
    if |system| == 0 then Fail(NoEquations)
    else if |system[0]| < 2 then Fail(TooFewCoefficients)
    else if exists i :: 0 <= i < |system| && |system[i]| != |system[0]| then Fail(UnequalLengths)
    else
      assert IsMatrix(system, |system[0]|);
      Pass
  }

  /**
   * The value of one variable in the solution set: free (printed as its own name
   * "Xi"), or a constant plus coefficient-times-value terms.
   */
  datatype VarValue = Free(index: nat) | Expr(terms: seq<Term>, constant: real)
  datatype Term = Term(coefficient: real, variable: VarValue)

  /** The number a solution-set entry denotes when the variables take the values x. */
  function Value(v: VarValue, x: seq<real>): real
    decreases v
  {
    match v
    case Free(i) => if i < |x| then x[i] else 0.0
    case Expr(ts, c) => c + TermsValue(ts, x)
  }

  function TermsValue(ts: seq<Term>, x: seq<real>): real
    decreases ts
  {
    if |ts| == 0 then 0.0
    else
      var t := ts[|ts| - 1];
      assert t.variable < t;
      TermsValue(ts[..|ts| - 1], x) + t.coefficient * Value(t.variable, x)
  }

  /** x is consistent with every entry of the solution set r. */
  predicate Agrees(r: seq<VarValue>, x: seq<real>) {
    |r| == |x| && forall v :: 0 <= v < |r| ==> x[v] == Value(r[v], x)
  }

  /** The starting solution set: every variable free. */
  function Initial(n: nat): (r: seq<VarValue>)
    ensures |r| == n && forall i :: 0 <= i < n ==> r[i] == Free(i)
  {
    seq(n, i requires 0 <= i < n => Free(i))
  }

  /**
   * The terms the solver writes for columns lo .. hi-1 of a row: one term per
   * non-zero coefficient, with the coefficient negated (it moves to the other side
   * of the equation) and the variable as the solution set currently has it.
   */
  function TermsOf(row: Row, sol: seq<VarValue>, lo: nat, hi: nat): seq<Term>
    requires hi <= |row| && hi <= |sol|
    decreases hi
  {
    if hi <= lo then []
    else TermsOf(row, sol, lo, hi - 1) + (if row[hi - 1] != 0.0 then [Term(-row[hi - 1], sol[hi - 1])] else [])
  }

  /**
   * The solution set read off rows t-1 down to 0 of m, starting from sol; [] when a
   * row says 0 = c for a non-zero constant c.
   */
  function SolveRows(m: seq<Row>, t: nat, columns: nat, sol: seq<VarValue>): (r: seq<VarValue>)
    requires t <= |m| && IsMatrix(m, columns) && columns >= 1 && |sol| == columns - 1
    ensures r == [] || |r| == |sol|
    decreases t
  {
    if t == 0 then sol
    else
      var row := m[t - 1];
      var c := FirstNonZero(row);
      if c == columns - 1 then []
      else if c == columns then SolveRows(m, t - 1, columns, sol)
      else SolveRows(m, t - 1, columns, sol[c := Expr(TermsOf(row, sol, c + 1, columns - 1), row[columns - 1])])
  }

  /**
   * The read-off loop of the solver, over the rows from last to first; each row with
   * a pivot in a variable column sets that variable's entry.
   */
  method ReadOff(m: seq<Row>, columns: nat) returns (r: seq<VarValue>)
    requires IsMatrix(m, columns) && columns >= 1
    ensures r == SolveRows(m, |m|, columns, Initial(columns - 1))
  {
    var solution := seq(columns - 1, i requires 0 <= i < columns - 1 => Free(i));
    for t := |m| downto 0
      invariant |solution| == columns - 1
      invariant SolveRows(m, t, columns, solution) == SolveRows(m, |m|, columns, Initial(columns - 1))
    {
      var row := m[t];
      var firstNonzero := FindNonzeroElement(row);
      if firstNonzero == columns - 1 {
        // Pivot in the constant column: the row reads 0 = c with c not zero.
        return [];
      } else if firstNonzero == columns {
        // An all-zero row constrains nothing.
        continue;
      }
      var terms: seq<Term> := [];
      var constant := 0.0;
      for i := firstNonzero + 1 to columns
        invariant i <= columns - 1 ==> terms == TermsOf(row, solution, firstNonzero + 1, i)
        invariant i == columns ==>
          terms == TermsOf(row, solution, firstNonzero + 1, columns - 1) && constant == row[columns - 1]
      {
        var coefficient := row[i];
        if i == columns - 1 {
          // Last column: the right-hand side.
          constant := coefficient;
        } else if coefficient != 0.0 {
          // A non-zero coefficient becomes a term.
          terms := terms + [Term(-row[i], solution[i])];
        }
      }
      solution := solution[firstNonzero := Expr(terms, constant)];
    }
    r := solution;
  }

  /** The system has no equation 0 = c with c non-zero among rows 0 .. t-1. */
  predicate Consistent(m: seq<Row>, t: nat, columns: nat)
    requires t <= |m|
  {
    forall j :: 0 <= j < t ==> FirstNonZero(m[j]) != columns - 1
  }

  /** The read-off comes back empty exactly when some row is an equation 0 = c, c != 0. */
  lemma {:induction false} SolveRowsEmpty(m: seq<Row>, t: nat, columns: nat, sol: seq<VarValue>)
    requires t <= |m| && IsMatrix(m, columns) && columns >= 2 && |sol| == columns - 1
    ensures SolveRows(m, t, columns, sol) == [] <==> !Consistent(m, t, columns)
  {
    if t > 0 {
      var row := m[t - 1];
      var c := FirstNonZero(row);
      if c != columns - 1 {
        if c == columns {
          SolveRowsEmpty(m, t - 1, columns, sol);
        } else {
          SolveRowsEmpty(m, t - 1, columns, sol[c := Expr(TermsOf(row, sol, c + 1, columns - 1), row[columns - 1])]);
        }
      }
    }
  }

  /** A row with only zero coefficients and a non-zero constant has no solution. */
  lemma ConstantRowUnsatisfiable(row: Row, x: seq<real>)
    requires |row| == |x| + 1 && FirstNonZero(row) == |x|
    ensures !Satisfies(row, x)
  {
    FirstNonZeroIsFirst(row);
    DotZeroPrefix(row, x, |x|);
  }

  /** An inconsistent system has no solution. */
  lemma InconsistentHasNoSolution(m: seq<Row>, columns: nat, x: seq<real>)
    requires IsMatrix(m, columns) && columns >= 1 && |x| == columns - 1
    requires !Consistent(m, |m|, columns)
    ensures !SatisfiesAll(m, x)
  {
    var j :| 0 <= j < |m| && FirstNonZero(m[j]) == columns - 1;
    ConstantRowUnsatisfiable(m[j], x);
  }

  lemma {:induction false} DotZeroPrefix(row: Row, x: seq<real>, c: nat)
    requires c <= |row| && c <= |x|
    requires forall j :: 0 <= j < c ==> row[j] == 0.0
    ensures Dot(row, x, c) == 0.0
  {
    if c > 0 {
      DotZeroPrefix(row, x, c - 1);
    }
  }

  /** TermsOf only looks at the solution entries of columns with a non-zero coefficient. */
  lemma {:induction false} TermsOfAgree(row: Row, sol: seq<VarValue>, sol': seq<VarValue>, lo: nat, hi: nat)
    requires hi <= |row| && hi <= |sol| && hi <= |sol'|
    requires forall k :: lo <= k < hi && row[k] != 0.0 ==> sol[k] == sol'[k]
    ensures TermsOf(row, sol, lo, hi) == TermsOf(row, sol', lo, hi)
  {
    if lo < hi {
      TermsOfAgree(row, sol, sol', lo, hi - 1);
    }
  }

  /**
   * Over free variables, the terms of columns lo .. hi-1 add up to minus that stretch
   * of the row's left-hand side.
   */
  lemma {:induction false} TermsValueOfRow(row: Row, n: nat, lo: nat, hi: nat, x: seq<real>)
    requires lo <= hi <= n && |row| == n + 1 && |x| == n
    ensures TermsValue(TermsOf(row, Initial(n), lo, hi), x) == Dot(row, x, lo) - Dot(row, x, hi)
  {
    if lo < hi {
      TermsValueOfRow(row, n, lo, hi - 1, x);
      var ts := TermsOf(row, Initial(n), lo, hi - 1);
      if row[hi - 1] != 0.0 {
        var t := Term(-row[hi - 1], Free(hi - 1));
        assert TermsOf(row, Initial(n), lo, hi) == ts + [t];
        assert (ts + [t])[..|ts|] == ts;
      } else {
        assert TermsOf(row, Initial(n), lo, hi) == ts;
      }
    }
  }

  /** The terms of columns whose variables are all 0 add up to 0. */
  lemma {:induction false} TermsValueZero(row: Row, n: nat, lo: nat, hi: nat, x: seq<real>)
    requires lo <= hi <= n && |row| == n + 1 && |x| == n
    requires forall k :: lo <= k < hi && row[k] != 0.0 ==> x[k] == 0.0
    ensures TermsValue(TermsOf(row, Initial(n), lo, hi), x) == 0.0
  {
    if lo < hi {
      TermsValueZero(row, n, lo, hi - 1, x);
      var ts := TermsOf(row, Initial(n), lo, hi - 1);
      if row[hi - 1] != 0.0 {
        var t := Term(-row[hi - 1], Free(hi - 1));
        assert TermsOf(row, Initial(n), lo, hi) == ts + [t];
        assert Value(t.variable, x) == 0.0;
        assert (ts + [t])[..|ts|] == ts;
      } else {
        assert TermsOf(row, Initial(n), lo, hi) == ts;
      }
    }
  }

  /** What a row with its pivot in variable column c says about Xc, over free variables. */
  function PivotValue(row: Row, n: nat): VarValue
    requires |row| == n + 1 && FirstNonZero(row) < n
  {
    Expr(TermsOf(row, Initial(n), FirstNonZero(row) + 1, n), row[n])
  }

  /**
   * An equation whose pivot entry is 1 holds exactly when its pivot variable equals
   * the constant minus the rest of the left-hand side.
   */
  lemma RowSatisfiesIff(row: Row, x: seq<real>, n: nat)
    requires |row| == n + 1 && |x| == n
    requires FirstNonZero(row) < n && row[FirstNonZero(row)] == 1.0
    ensures Satisfies(row, x) <==> x[FirstNonZero(row)] == Value(PivotValue(row, n), x)
  {
    var c := FirstNonZero(row);
    FirstNonZeroIsFirst(row);
    DotZeroPrefix(row, x, c);
    assert Dot(row, x, c + 1) == x[c];
    TermsValueOfRow(row, n, c + 1, n, x);
  }

  /** An all-zero equation holds for every assignment. */
  lemma ZeroRowSatisfied(row: Row, x: seq<real>)
    requires |row| == |x| + 1 && IsZeroRow(row)
    ensures Satisfies(row, x)
  {
    DotZeroPrefix(row, x, |x|);
  }

  /**
   * Rows t .. |m|-1 have been read: each pivot variable of those rows holds its row's
   * expression, and every other variable is still free.
   */
  predicate Resolved(m: seq<Row>, t: nat, n: nat, sol: seq<VarValue>)
    requires t <= |m| && IsMatrix(m, n + 1)
  {
    && |sol| == n
    && (forall j :: t <= j < |m| && FirstNonZero(m[j]) < n ==> sol[FirstNonZero(m[j])] == PivotValue(m[j], n))
    && (forall v :: 0 <= v < n && (forall j :: t <= j < |m| ==> FirstNonZero(m[j]) != v) ==> sol[v] == Free(v))
  }

  /**
   * In reduced row-echelon form a column with a non-zero entry right of a row's pivot
   * is not the pivot column of any other row.
   */
  lemma NotAPivotColumn(m: seq<Row>, columns: nat, i: nat, k: nat)
    requires ReducedEchelon(m, columns) && i < |m| && k < columns - 1
    requires FirstNonZero(m[i]) < k && m[i][k] != 0.0
    ensures forall j :: 0 <= j < |m| ==> FirstNonZero(m[j]) != k
  {
    forall j | 0 <= j < |m| ensures FirstNonZero(m[j]) != k {
    }
  }

  /** Reading one more row (with its pivot in a variable column) keeps `Resolved`. */
  lemma ResolvedStep(m: seq<Row>, t: nat, columns: nat, sol: seq<VarValue>)
    requires ReducedEchelon(m, columns) && columns >= 1 && 0 < t <= |m|
    requires Resolved(m, t, columns - 1, sol)
    requires FirstNonZero(m[t - 1]) < columns - 1
    ensures
      var row := m[t - 1];
      var c := FirstNonZero(row);
      Resolved(m, t - 1, columns - 1, sol[c := Expr(TermsOf(row, sol, c + 1, columns - 1), row[columns - 1])])
  {
    var n := columns - 1;
    var row := m[t - 1];
    var c := FirstNonZero(row);
    forall k | c + 1 <= k < n && row[k] != 0.0 ensures sol[k] == Initial(n)[k] {
      NotAPivotColumn(m, columns, t - 1, k);
    }
    TermsOfAgree(row, sol, Initial(n), c + 1, n);
    var sol' := sol[c := PivotValue(row, n)];
    forall j | t <= j < |m| && FirstNonZero(m[j]) < n ensures FirstNonZero(m[j]) != c {
      assert HasPivot(m[j]);
    }
    assert Resolved(m, t - 1, n, sol');
  }

  /** Skipping an all-zero row keeps `Resolved`. */
  lemma ResolvedSkip(m: seq<Row>, t: nat, columns: nat, sol: seq<VarValue>)
    requires IsMatrix(m, columns) && columns >= 1 && 0 < t <= |m|
    requires Resolved(m, t, columns - 1, sol)
    requires FirstNonZero(m[t - 1]) == columns
    ensures Resolved(m, t - 1, columns - 1, sol)
  {
  }

  /** Reading row t-1 of a consistent reduced system keeps `Resolved`. */
  lemma ResolvedNext(m: seq<Row>, t: nat, columns: nat, sol: seq<VarValue>) returns (sol': seq<VarValue>)
    requires ReducedEchelon(m, columns) && columns >= 1 && 0 < t <= |m|
    requires Resolved(m, t, columns - 1, sol) && FirstNonZero(m[t - 1]) != columns - 1
    ensures |sol'| == columns - 1
    ensures SolveRows(m, t, columns, sol) == SolveRows(m, t - 1, columns, sol')
    ensures Resolved(m, t - 1, columns - 1, sol')
  {
    var row := m[t - 1];
    var c := FirstNonZero(row);
    if c == columns {
      ResolvedSkip(m, t, columns, sol);
      sol' := sol;
    } else {
      sol' := sol[c := Expr(TermsOf(row, sol, c + 1, columns - 1), row[columns - 1])];
      ResolvedStep(m, t, columns, sol);
    }
  }

  lemma {:induction false} ResolvedAll(m: seq<Row>, t: nat, columns: nat, sol: seq<VarValue>)
    requires ReducedEchelon(m, columns) && columns >= 1 && t <= |m|
    requires Resolved(m, t, columns - 1, sol) && Consistent(m, t, columns)
    ensures Resolved(m, 0, columns - 1, SolveRows(m, t, columns, sol))
  {
    if t > 0 {
      var sol' := ResolvedNext(m, t, columns, sol);
      assert Consistent(m, t - 1, columns);
      ResolvedAll(m, t - 1, columns, sol');
    }
  }


  /**
   * The shape of the solution set of a consistent system in reduced row-echelon form:
   * a variable that is the pivot of a row holds that row's constant plus the row's
   * later non-zero coefficients, negated, on free variables; every other variable is
   * free.
   */
  lemma ReadOffValues(m: seq<Row>, columns: nat)
    requires ReducedEchelon(m, columns) && columns >= 1 && Consistent(m, |m|, columns)
    ensures var r := SolveRows(m, |m|, columns, Initial(columns - 1));
      && |r| == columns - 1
      && (forall j :: 0 <= j < |m| && FirstNonZero(m[j]) < columns - 1 ==>
            r[FirstNonZero(m[j])] == PivotValue(m[j], columns - 1))
      && (forall v :: 0 <= v < columns - 1 && (forall j :: 0 <= j < |m| ==> FirstNonZero(m[j]) != v) ==>
            r[v] == Free(v))
  {
    ResolvedAll(m, |m|, columns, Initial(columns - 1));
  }

  /**
   * For a consistent system in reduced row-echelon form, an assignment satisfies
   * every equation exactly when it agrees with the read-off solution set.
   */
  lemma ReadOffSolutions(m: seq<Row>, columns: nat, x: seq<real>)
    requires ReducedEchelon(m, columns) && columns >= 1 && Consistent(m, |m|, columns)
    requires |x| == columns - 1
    ensures SatisfiesAll(m, x) <==> Agrees(SolveRows(m, |m|, columns, Initial(columns - 1)), x)
  {
    var n := columns - 1;
    var r := SolveRows(m, |m|, columns, Initial(n));
    ReadOffValues(m, columns);
    if SatisfiesAll(m, x) {
      forall v | 0 <= v < n ensures x[v] == Value(r[v], x) {
        if j :| 0 <= j < |m| && FirstNonZero(m[j]) == v {
          RowSatisfiesIff(m[j], x, n);
        }
      }
    }
    if Agrees(r, x) {
      forall j | 0 <= j < |m| ensures Satisfies(m[j], x) {
        var c := FirstNonZero(m[j]);
        if c < n {
          RowSatisfiesIff(m[j], x, n);
        } else {
          FirstNonZeroIsFirst(m[j]);
          ZeroRowSatisfied(m[j], x);
        }
      }
    }
  }

  /**
   * A consistent system in reduced row-echelon form has a solution: every free
   * variable 0 and every pivot variable its row's constant.
   */
  lemma ConsistentHasSolution(m: seq<Row>, columns: nat)
    requires ReducedEchelon(m, columns) && columns >= 1 && Consistent(m, |m|, columns)
    ensures exists x :: |x| == columns - 1 && SatisfiesAll(m, x)
  {
    var n := columns - 1;
    var r := SolveRows(m, |m|, columns, Initial(n));
    ReadOffValues(m, columns);
    var x := seq(n, v requires 0 <= v < n => if r[v].Expr? then r[v].constant else 0.0);
    assert forall k :: 0 <= k < n && Unpivoted(m, k) ==> x[k] == 0.0;
    forall v | 0 <= v < n ensures x[v] == Value(r[v], x) {
      if j :| 0 <= j < |m| && FirstNonZero(m[j]) == v {
        PivotVariableAtConstant(m, columns, j, x);
      }
    }
    ReadOffSolutions(m, columns, x);
  }

  /**
   * When every free variable is 0, the expression written for a pivot variable
   * evaluates to its row's constant.
   */
  lemma PivotVariableAtConstant(m: seq<Row>, columns: nat, j: nat, x: seq<real>)
    requires ReducedEchelon(m, columns) && columns >= 1 && j < |m| && FirstNonZero(m[j]) < columns - 1
    requires |x| == columns - 1
    requires forall k :: 0 <= k < columns - 1 && Unpivoted(m, k) ==> x[k] == 0.0
    ensures Value(PivotValue(m[j], columns - 1), x) == m[j][columns - 1]
  {
    var n := columns - 1;
    var row := m[j];
    var v := FirstNonZero(row);
    forall k | v + 1 <= k < n && row[k] != 0.0 ensures x[k] == 0.0 {
      NotAPivotColumn(m, columns, j, k);
    }
    TermsValueZero(row, n, v + 1, n, x);
  }

  /** The number of equations with a pivot; in echelon form, the rank of the system. */
  function Rank(m: seq<Row>): (r: nat)
    ensures r <= |m|
    decreases |m|
  {
    if |m| == 0 then 0
    else Rank(m[..|m| - 1]) + (if HasPivot(m[|m| - 1]) then 1 else 0)
  }

  /** In echelon form the equations with a pivot are exactly the first Rank(m) rows. */
  lemma {:induction false} EchelonRank(m: seq<Row>, w: nat)
    requires IsMatrix(m, w) && Echelon(m)
    ensures forall j :: 0 <= j < |m| ==> (HasPivot(m[j]) <==> j < Rank(m))
    decreases |m|
  {
    if |m| > 0 {
      var p := m[..|m| - 1];
      assert Echelon(p) by {
        forall i, j | 0 <= i < j < |p| && HasPivot(p[j]) ensures FirstNonZero(p[i]) < FirstNonZero(p[j]) {
          assert p[i] == m[i] && p[j] == m[j];
        }
      }
      EchelonRank(p, w);
      if HasPivot(m[|m| - 1]) {
        forall j | 0 <= j < |p| ensures HasPivot(p[j]) {
          assert FirstNonZero(m[j]) < FirstNonZero(m[|m| - 1]);
        }
      }
    }
  }

  /** No equation of m has its pivot in column v. */
  predicate Unpivoted(m: seq<Row>, v: nat) {
    forall l :: 0 <= l < |m| ==> FirstNonZero(m[l]) != v
  }

  /**
   * In echelon form with fewer than columns - 1 rows having a pivot, some variable
   * column is no row's pivot: either some pivot skips a column, or the pivots are
   * 0 .. k-1 and column k is left over.
   */
  lemma {:induction false} UnusedColumn(m: seq<Row>, columns: nat, k: nat, j: nat)
    requires IsMatrix(m, columns) && Echelon(m) && k <= |m| && k < columns - 1
    requires forall l :: 0 <= l < |m| ==> (HasPivot(m[l]) <==> l < k)
    requires j <= k && forall l :: 0 <= l < j ==> FirstNonZero(m[l]) == l
    ensures exists v :: 0 <= v < columns - 1 && Unpivoted(m, v)
    decreases k - j
  {
    if j == k {
      forall l | k <= l < |m| ensures FirstNonZero(m[l]) != k {
        assert !HasPivot(m[l]);
      }
      assert Unpivoted(m, k);
    } else if FirstNonZero(m[j]) == j {
      UnusedColumn(m, columns, k, j + 1);
    } else {
      if j > 0 {
        assert FirstNonZero(m[j - 1]) < FirstNonZero(m[j]);
      }
      forall l | j < l < |m| ensures FirstNonZero(m[l]) > j {
        if !HasPivot(m[l]) {
          assert FirstNonZero(m[l]) == columns;
        }
      }
      assert Unpivoted(m, j);
    }
  }

  /**
   * A consistent reduced system with fewer independent equations than variables
   * leaves at least one variable free in the read-off.
   */
  lemma FewerEquationsLeaveFree(m: seq<Row>, columns: nat)
    requires ReducedEchelon(m, columns) && columns >= 2 && Consistent(m, |m|, columns)
    requires Rank(m) < columns - 1
    ensures var r := SolveRows(m, |m|, columns, Initial(columns - 1));
      |r| == columns - 1 && exists v :: 0 <= v < |r| && r[v] == Free(v)
  {
    EchelonRank(m, columns);
    UnusedColumn(m, columns, Rank(m), 0);
    var v :| 0 <= v < columns - 1 && Unpivoted(m, v);
    ReadOffValues(m, columns);
    var r := SolveRows(m, |m|, columns, Initial(columns - 1));
    assert r[v] == Free(v);
  }

  /**
   * The answer `values` describes the solutions of the system `orig` with columns - 1
   * variables: it is empty exactly when there is no solution, and otherwise has one
   * entry per variable and an assignment solves `orig` exactly when it agrees with it.
   */
  ghost predicate DescribesSolutions(orig: seq<Row>, columns: nat, values: seq<VarValue>) {
    && (values == [] <==> forall x :: |x| == columns - 1 ==> !SatisfiesAll(orig, x))
    && (values != [] ==> (
          && |values| == columns - 1
          && forall x :: |x| == columns - 1 ==> (SatisfiesAll(orig, x) <==> Agrees(values, x))))
  }

  /**
   * Reading the solution set off a reduced system with the same solutions as `orig`
   * describes the solutions of `orig`.
   */
  lemma ReadOffDescribes(orig: seq<Row>, m: seq<Row>, columns: nat)
    requires ReducedEchelon(m, columns) && columns >= 2 && SameSolutions(orig, m)
    ensures DescribesSolutions(orig, columns, SolveRows(m, |m|, columns, Initial(columns - 1)))
  {
    var values := SolveRows(m, |m|, columns, Initial(columns - 1));
    SolveRowsEmpty(m, |m|, columns, Initial(columns - 1));
    if values == [] {
      forall x | |x| == columns - 1 ensures !SatisfiesAll(orig, x) {
        InconsistentHasNoSolution(m, columns, x);
      }
    } else {
      ConsistentHasSolution(m, columns);
      ReadOffValues(m, columns);
      forall x | |x| == columns - 1 ensures SatisfiesAll(orig, x) <==> Agrees(values, x) {
        ReadOffSolutions(m, columns, x);
      }
    }
  }

  /** The result of the solver: the validator's error, or the solution set. */
  datatype Answer = Raised(error: SystemError) | Solved(values: seq<VarValue>)

  /**
   * The solver: validate, reduce the system in place, read the solution set off the
   * reduced rows. The empty solution set means the system has no solution; otherwise
   * the solution set describes exactly the solutions of the input system.
   */
  method Solve(system: array<Row>) returns (r: Answer)
    modifies system
    ensures AssertSystem(old(system[..])).Fail? ==>
      r == Raised(AssertSystem(old(system[..])).error) && system[..] == old(system[..])
    ensures AssertSystem(old(system[..])) == Pass ==> (
      var columns := old(|system[0]|);
      && r.Solved?
      && ReducedEchelon(system[..], columns)
      && SameSolutions(old(system[..]), system[..])
      && r.values == SolveRows(system[..], system.Length, columns, Initial(columns - 1))
      && DescribesSolutions(old(system[..]), columns, r.values))
  {
    var check := AssertSystem(system[..]);
    if check.Fail? {
      return Raised(check.error);
    }
    ghost var orig := system[..];
    var columns := |system[0]|;
    ReducedRowEchelon(system);
    var values := ReadOff(system[..], columns);
    ReadOffDescribes(orig, system[..], columns);
    r := Solved(values);
  }
}
