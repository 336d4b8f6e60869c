/**
 * The row sorter: a stable sort of the rows by pivot column. The sort the system
 * runs is its language's built-in stable sort; its result is given here by
 * `SortByPivot`, an insertion sort whose output is proved sorted, a permutation
 * of its input and stable.
 */
module Sorting {
  import opened Rows

  /** Rows in non-decreasing order of pivot column. */
  predicate SortedByPivot(s: seq<Row>) {
    forall i, j :: 0 <= i < j < |s| ==> FirstNonZero(s[i]) <= FirstNonZero(s[j])
  }

  /**
   * Inserts x into t after every row whose pivot column is at most x's, scanning
   * from the right.
   */
  function InsertByPivot(t: seq<Row>, x: Row): seq<Row> {
    if |t| == 0 || FirstNonZero(t[|t| - 1]) <= FirstNonZero(x) then t + [x]
    else InsertByPivot(t[..|t| - 1], x) + [t[|t| - 1]]
  }

  /** The stable sort of the rows by pivot column. */
  function SortByPivot(s: seq<Row>): seq<Row> {
    if |s| == 0 then [] else InsertByPivot(SortByPivot(s[..|s| - 1]), s[|s| - 1])
  }

  /** The rows of s whose pivot column is c, in their order in s. */
  function WithPivot(s: seq<Row>, c: nat): seq<Row> {
    if |s| == 0 then []
    else WithPivot(s[..|s| - 1], c) + (if FirstNonZero(s[|s| - 1]) == c then [s[|s| - 1]] else [])
  }

  lemma {:induction false} InsertPermutes(t: seq<Row>, x: Row)
    ensures multiset(InsertByPivot(t, x)) == multiset(t) + multiset{x}
  {
    if |t| > 0 && FirstNonZero(t[|t| - 1]) > FirstNonZero(x) {
      InsertPermutes(t[..|t| - 1], x);
      assert t == t[..|t| - 1] + [t[|t| - 1]];
    }
  }

  lemma {:induction false} InsertSorted(t: seq<Row>, x: Row)
    requires SortedByPivot(t)
    ensures SortedByPivot(InsertByPivot(t, x))
  {
    if |t| > 0 && FirstNonZero(t[|t| - 1]) > FirstNonZero(x) {
      var t' := t[..|t| - 1];
      var last := t[|t| - 1];
      InsertSorted(t', x);
      InsertPermutes(t', x);
      var u := InsertByPivot(t', x);
      forall y | y in u ensures FirstNonZero(y) <= FirstNonZero(last) {
        assert y in multiset(u);
        if y != x {
          assert y in multiset(t');
          var k :| 0 <= k < |t'| && t'[k] == y;
        }
      }
      var r := u + [last];
      forall i, j | 0 <= i < j < |r| ensures FirstNonZero(r[i]) <= FirstNonZero(r[j]) {
        if j == |r| - 1 {
          assert r[i] in u;
        }
      }
    }
  }

  /** The result of the sort is ordered by pivot column and is a permutation of the input. */
  lemma {:induction false} SortByPivotSortedPermutation(s: seq<Row>)
    ensures |SortByPivot(s)| == |s|
    ensures multiset(SortByPivot(s)) == multiset(s)
    ensures SortedByPivot(SortByPivot(s))
  {
    if |s| > 0 {
      var s' := s[..|s| - 1];
      SortByPivotSortedPermutation(s');
      InsertPermutes(SortByPivot(s'), s[|s| - 1]);
      InsertSorted(SortByPivot(s'), s[|s| - 1]);
      assert s == s' + [s[|s| - 1]];
      assert |multiset(SortByPivot(s))| == |multiset(s)|;
    }
  }

  lemma {:induction false} InsertKeepsClass(t: seq<Row>, x: Row, c: nat)
    ensures WithPivot(InsertByPivot(t, x), c) == WithPivot(t, c) + WithPivot([x], c)
  {
    if |t| == 0 || FirstNonZero(t[|t| - 1]) <= FirstNonZero(x) {
      assert (t + [x])[..|t|] == t;
      assert [x][..0] == [];
    } else {
      var t' := t[..|t| - 1];
      var last := t[|t| - 1];
      InsertKeepsClass(t', x, c);
      var u := InsertByPivot(t', x);
      assert (u + [last])[..|u|] == u;
      assert [x][..0] == [];
    }
  }

  /**
   * Stability: for every pivot column, the rows with that pivot column appear in
   * the output in the same relative order as in the input.
   */
  lemma {:induction false} SortByPivotStable(s: seq<Row>, c: nat)
    ensures WithPivot(SortByPivot(s), c) == WithPivot(s, c)
  {
    if |s| > 0 {
      var s' := s[..|s| - 1];
      SortByPivotStable(s', c);
      InsertKeepsClass(SortByPivot(s'), s[|s| - 1], c);
      assert [s[|s| - 1]][..0] == [];
    }
  }

  lemma {:induction false} InsertAfterPrefix(p: seq<Row>, t: seq<Row>, x: Row)
    requires forall i :: 0 <= i < |p| ==> FirstNonZero(p[i]) <= FirstNonZero(x)
    ensures InsertByPivot(p + t, x) == p + InsertByPivot(t, x)
  {
    if |t| == 0 {
      assert p + t == p;
    } else {
      var t' := t[..|t| - 1];
      var last := t[|t| - 1];
      assert (p + t)[..|p + t| - 1] == p + t';
      if FirstNonZero(last) > FirstNonZero(x) {
        InsertAfterPrefix(p, t', x);
      }
    }
  }

  /** Sorting rows that are already in pivot order leaves them as they are. */
  lemma {:induction false} SortByPivotIdempotent(s: seq<Row>)
    requires SortedByPivot(s)
    ensures SortByPivot(s) == s
  {
    if |s| > 0 {
      var s' := s[..|s| - 1];
      var last := s[|s| - 1];
      assert SortedByPivot(s');
      SortByPivotIdempotent(s');
      assert |s'| > 0 ==> s'[|s'| - 1] == s[|s| - 2];
      assert |s'| > 0 ==> FirstNonZero(s[|s| - 2]) <= FirstNonZero(last);
      assert InsertByPivot(s', last) == s' + [last];
      assert s == s' + [last];
    }
  }

  /**
   * A sorted prefix whose pivot columns are at most those of every later row stays
   * in place; the sort only reorders the rest.
   */
  lemma {:induction false} SortKeepsPrefix(p: seq<Row>, q: seq<Row>)
    requires SortedByPivot(p)
    requires forall i, j :: 0 <= i < |p| && 0 <= j < |q| ==> FirstNonZero(p[i]) <= FirstNonZero(q[j])
    ensures SortByPivot(p + q) == p + SortByPivot(q)
  {
    if |q| == 0 {
      assert p + q == p;
      SortByPivotIdempotent(p);
    } else {
      var q' := q[..|q| - 1];
      var x := q[|q| - 1];
      assert (p + q)[..|p + q| - 1] == p + q';
      SortKeepsPrefix(p, q');
      InsertAfterPrefix(p, SortByPivot(q'), x);
    }
  }

  /**
   * With rows of equal width, all-zero rows (pivot column = width) come after every
   * row that has a pivot.
   */
  lemma SortedZeroRowsLast(s: seq<Row>, w: nat)
    requires SortedByPivot(s)
    requires forall i :: 0 <= i < |s| ==> |s[i]| == w
    ensures forall i, j :: 0 <= i < j < |s| && !HasPivot(s[i]) ==> !HasPivot(s[j])
  {
  }

  /** The source's sort_rows: the rows are reordered in place into stable pivot order. */
  method SortRows(system: array<Row>)
    modifies system
    ensures system[..] == SortByPivot(old(system[..]))
    ensures multiset(system[..]) == multiset(old(system[..]))
    ensures SortedByPivot(system[..])
    ensures forall c :: WithPivot(system[..], c) == WithPivot(old(system[..]), c)
  {
    var sorted := SortByPivot(system[..]);
    SortByPivotSortedPermutation(system[..]);
    forall c ensures WithPivot(sorted, c) == WithPivot(system[..], c) {
      SortByPivotStable(system[..], c);
    }
    forall i | 0 <= i < system.Length {
      system[i] := sorted[i];
    }
    assert system[..] == sorted;
  }
}
