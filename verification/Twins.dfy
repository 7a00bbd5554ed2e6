/** Two items with the same row and the same dense hash are never encoded. */
module Twins {
  import opened Algebra
  import opened WeightSets
  import opened SparseMatrix
  import opened Peeling
  import opened FCInverse
  import opened FreeDraws
  import opened Elimination
  import opened Okvs

  /** Two items agree in their sparse row and in their dense hash. */
  ghost predicate HasTwins<H>(rows: seq<seq<nat>>, dense: seq<H>) {
    exists i, j :: 0 <= i < j < |rows| && AreTwins(rows, dense, i, j)
  }

  ghost predicate AreTwins<H>(rows: seq<seq<nat>>, dense: seq<H>, i: nat, j: nat) {
    i < |rows| && j < |rows| && |dense| == |rows| && i != j && rows[i] == rows[j] && dense[i] == dense[j]
  }

  // In a triangulation both are gap rows.

  lemma NotMain<H>(rows: seq<seq<nat>>, dense: seq<H>, size: nat, t: Triangle, i: nat, j: nat)
    requires Triangulated(rows, dense, size, t) && AreTwins(rows, dense, i, j)
    ensures i !in t.mainRows
  {
    hide Distinct, Below, Triangular;
    if j in t.mainRows {
      var k' :| 0 <= k' < |t.mainRows| && t.mainRows[k'] == j;
      forall k | 0 <= k < |t.mainRows|
        ensures t.mainRows[k] != i
      {
        OneMain(rows, t.mainRows, t.mainCols, k, k');
      }
    } else {
      var g := GapOf(t, |rows|, j);
      assert HasMainRow(rows, dense, t.mainRows, t.mainCols, t.gapRows[g]);
      var q: nat :| GapRow(rows, dense, t.mainRows, t.mainCols, t.gapRows[g], q);
      forall k | 0 <= k < |t.mainRows|
        ensures t.mainRows[k] != i
      {
        GapDiffers(rows, dense, t.mainRows, t.mainCols, t.gapRows[g], q, k);
      }
    }
  }

  /** Equal rows are not two main rows. */
  lemma OneMain(rows: seq<seq<nat>>, mainRows: seq<nat>, mainCols: seq<nat>, k: nat, k': nat)
    requires Triangular(rows, mainRows, mainCols) && k < |mainRows| && k' < |mainRows|
    ensures mainRows[k] < |rows| && mainRows[k'] < |rows|
    ensures rows[mainRows[k]] == rows[mainRows[k']] ==> k == k'
  {}

  /** A gap row equal to a main row is paired with it, so that its hash is another one. */
  lemma GapDiffers<H>(
    rows: seq<seq<nat>>, dense: seq<H>, mainRows: seq<nat>, mainCols: seq<nat>, gap: (nat, nat), q: nat, k: nat)
    requires |dense| == |rows| && Triangular(rows, mainRows, mainCols) && k < |mainRows|
    requires GapRow(rows, dense, mainRows, mainCols, gap, q)
    ensures mainRows[k] < |rows|
    ensures rows[gap.0] == rows[mainRows[k]] ==> gap.1 == mainRows[k] && dense[gap.0] != dense[mainRows[k]]
  {}

  lemma GapOf(t: Triangle, n: nat, r: nat) returns (g: nat)
    requires SplitsRows(t.mainRows, t.gapRows, Below(n)) && r < n && r !in t.mainRows
    ensures g < |t.gapRows| && t.gapRows[g].0 == r
  {
    assert r in Entries(t.mainRows + Firsts(t.gapRows));
    var k :| 0 <= k < |Firsts(t.gapRows)| && Firsts(t.gapRows)[k] == r;
    g := k;
  }

  // The same main rows clear both of them, each of them an even number of times in the two lists together.

  /** The indices of the main rows that a list contains an odd number of times. */
  ghost function OddIndices(mainRows: seq<nat>, list: seq<nat>): (a: set<nat>)
    requires forall x :: x in list ==> x in mainRows
    ensures forall i :: i in a ==> i < |mainRows|
  {
    if list == [] then {}
    else SymDiff(OddIndices(mainRows, list[..|list| - 1]), {Position(mainRows, list[|list| - 1])})
  }

  ghost function Position(s: seq<nat>, x: nat): (k: nat)
    requires x in s
    ensures k < |s| && s[k] == x
  {
    if s[0] == x then 0 else 1 + Position(s[1..], x)
  }

  lemma {:induction false} OddXor(rows: seq<seq<nat>>, mainRows: seq<nat>, list: seq<nat>)
    requires InRange(mainRows, |rows|) && InRange(list, |rows|) && forall x :: x in list ==> x in mainRows
    ensures XorOf(rows, list) == MainXor(rows, mainRows, OddIndices(mainRows, list), |mainRows|)
  {
    if list == [] {
      NoneAdded(rows, mainRows, {}, |mainRows|);
    } else {
      var init, last := list[..|list| - 1], list[|list| - 1];
      OddXor(rows, mainRows, init);
      ToggleIndex(rows, mainRows, OddIndices(mainRows, init), Position(mainRows, last), |mainRows|);
    }
  }

  /** The sum of the listed entries. */
  ghost function ListSum<V>(zero: V, plus: (V, V) -> V, c: seq<V>, list: seq<nat>): V
    requires InRange(list, |c|)
  {
    if list == [] then zero else plus(ListSum(zero, plus, c, list[..|list| - 1]), c[list[|list| - 1]])
  }

  /** The sum of the entries of the main rows whose index is in a, among the first k. */
  ghost function IndexSum<V>(zero: V, plus: (V, V) -> V, c: seq<V>, mainRows: seq<nat>, a: set<nat>, k: nat): V
    requires InRange(mainRows, |c|) && k <= |mainRows|
  {
    if k == 0 then zero
    else if k - 1 in a then plus(IndexSum(zero, plus, c, mainRows, a, k - 1), c[mainRows[k - 1]])
    else IndexSum(zero, plus, c, mainRows, a, k - 1)
  }

  lemma {:induction false} ToggleSum<V(!new)>(
    zero: V, plus: (V, V) -> V, c: seq<V>, mainRows: seq<nat>, a: set<nat>, j: nat, k: nat)
    requires XorLaws(zero, plus) && InRange(mainRows, |c|) && j < |mainRows| && k <= |mainRows|
    ensures IndexSum(zero, plus, c, mainRows, SymDiff(a, {j}), k) ==
      if j < k then plus(IndexSum(zero, plus, c, mainRows, a, k), c[mainRows[j]])
      else IndexSum(zero, plus, c, mainRows, a, k)
  {
    hide XorLaws;
    if k > 0 {
      ToggleSum(zero, plus, c, mainRows, a, j, k - 1);
      var rest := IndexSum(zero, plus, c, mainRows, a, k - 1);
      XorMove(zero, plus, rest, c[mainRows[k - 1]], c[mainRows[j]]);
      XorCancel(zero, plus, rest, c[mainRows[j]]);
    }
  }

  lemma {:induction false} NothingSummed<V>(zero: V, plus: (V, V) -> V, c: seq<V>, mainRows: seq<nat>, k: nat)
    requires InRange(mainRows, |c|) && k <= |mainRows|
    ensures IndexSum(zero, plus, c, mainRows, {}, k) == zero
  {
    if k > 0 {
      NothingSummed(zero, plus, c, mainRows, k - 1);
    }
  }

  lemma {:induction false} OddSum<V(!new)>(
    zero: V, plus: (V, V) -> V, c: seq<V>, mainRows: seq<nat>, list: seq<nat>)
    requires XorLaws(zero, plus) && InRange(mainRows, |c|) && InRange(list, |c|)
    requires forall x :: x in list ==> x in mainRows
    ensures ListSum(zero, plus, c, list) ==
      IndexSum(zero, plus, c, mainRows, OddIndices(mainRows, list), |mainRows|)
  {
    hide XorLaws;
    if list == [] {
      NothingSummed(zero, plus, c, mainRows, |mainRows|);
    } else {
      var init, last := list[..|list| - 1], list[|list| - 1];
      OddSum(zero, plus, c, mainRows, init);
      ToggleSum(zero, plus, c, mainRows, OddIndices(mainRows, init), Position(mainRows, last), |mainRows|);
    }
  }

  /** Two lists that clear rows with the same columns hold the same main rows an odd number of times. */
  lemma SameOdd(
    rows: seq<seq<nat>>, mainRows: seq<nat>, mainCols: seq<nat>, i: nat, j: nat, a: seq<nat>, b: seq<nat>)
    requires Triangular(rows, mainRows, mainCols)
    requires ClearsGap(rows, mainRows, mainCols, i, a) && ClearsGap(rows, mainRows, mainCols, j, b)
    requires rows[i] == rows[j]
    ensures OddIndices(mainRows, a) == OddIndices(mainRows, b)
  {
    TriangularShape(rows, mainRows, mainCols);
    ResidualIsXor(rows, i, a);
    ResidualIsXor(rows, j, b);
    SameUpTo(Entries(rows[i]), XorOf(rows, a), XorOf(rows, b), Entries(mainCols));
    XorOfConcat(rows, a, b);
    OddXor(rows, mainRows, a + b);
    OddConcat(mainRows, a, b);
    var odd := OddIndices(mainRows, a + b);
    MainRowsIndependent(rows, mainRows, mainCols, odd, |mainRows|);
    EqualSets(OddIndices(mainRows, a), OddIndices(mainRows, b)) by {
      assert odd == {};
    }
  }

  lemma {:induction false} OddConcat(mainRows: seq<nat>, a: seq<nat>, b: seq<nat>)
    requires (forall x :: x in a ==> x in mainRows) && forall x :: x in b ==> x in mainRows
    ensures OddIndices(mainRows, a + b) == SymDiff(OddIndices(mainRows, a), OddIndices(mainRows, b))
  {
    if b == [] {
      assert a + b == a;
    } else {
      var init, last := b[..|b| - 1], b[|b| - 1];
      OddConcat(mainRows, a, init);
      assert (a + b)[..|a + b| - 1] == a + init;
      SymDiffShift(OddIndices(mainRows, a), OddIndices(mainRows, init), {Position(mainRows, last)});
    }
  }

  /** The k-th dense coefficients, row by row. */
  ghost function Column<F>(coefs: seq<seq<F>>, k: nat): (c: seq<F>)
    requires forall q :: 0 <= q < |coefs| ==> k < |coefs[q]|
    ensures |c| == |coefs|
  {
    seq(|coefs|, q requires 0 <= q < |coefs| => coefs[q][k])
  }

  lemma {:induction false} CombinedIsSum<F(!new), V>(
    s: Space<F, V>, coefs: seq<seq<F>>, r: nat, added: seq<nat>, k: nat)
    requires XorLaws(s.zero, s.plus) && r < |coefs| && InRange(added, |coefs|)
    requires forall q :: 0 <= q < |coefs| ==> k < |coefs[q]|
    ensures Combined(s, coefs, r, added, k) == s.plus(coefs[r][k], ListSum(s.zero, s.plus, Column(coefs, k), added))
  {
    hide XorLaws;
    if added == [] {
      XorZero(s.zero, s.plus, coefs[r][k]);
    } else {
      var init, last := added[..|added| - 1], added[|added| - 1];
      CombinedIsSum(s, coefs, r, init, k);
      XorAssoc(s.zero, s.plus, coefs[r][k], ListSum(s.zero, s.plus, Column(coefs, k), init), coefs[last][k]);
    }
  }

  /** Twins have the same combined coefficients. */
  lemma TwinsCombine<F(!new), V>(
    s: Space<F, V>, rows: seq<seq<nat>>, coefs: seq<seq<F>>, mainRows: seq<nat>, mainCols: seq<nat>, i: nat, j: nat,
    a: seq<nat>, b: seq<nat>, k: nat)
    requires XorLaws(s.zero, s.plus) && |coefs| == |rows| && forall q :: 0 <= q < |coefs| ==> k < |coefs[q]|
    requires Triangular(rows, mainRows, mainCols)
    requires ClearsGap(rows, mainRows, mainCols, i, a) && ClearsGap(rows, mainRows, mainCols, j, b)
    requires rows[i] == rows[j] && coefs[i] == coefs[j]
    ensures Combined(s, coefs, i, a, k) == Combined(s, coefs, j, b, k)
  {
    hide XorLaws, Triangular, Residual;
    TriangularShape(rows, mainRows, mainCols);
    SameOdd(rows, mainRows, mainCols, i, j, a, b);
    CombinedIsSum(s, coefs, i, a, k);
    CombinedIsSum(s, coefs, j, b, k);
    OddSum(s.zero, s.plus, Column(coefs, k), mainRows, a);
    OddSum(s.zero, s.plus, Column(coefs, k), mainRows, b);
  }

  // A matrix with two equal rows has no inverse.

  /** Some value is not zero. */
  ghost predicate HasNonZero<V(!new)>(zero: V) {
    exists v: V :: At(v, v, v) && v != zero
  }

  lemma EqualRows<F, V>(s: Space<F, V>, m: seq<seq<F>>, inv: seq<seq<F>>, n: nat, a: nat, b: nat, v: V)
    returns (p: seq<V>, x: seq<V>)
    requires Square(m, n) && Square(inv, n) && a < n && b < n && a != b && m[a] == m[b] && v != s.vzero
    ensures |p| == |x| == n && IsProduct(s, inv, n, p, x) && !IsProduct(s, m, n, x, p)
  {
    x := seq(n, r => if r == a then v else s.vzero);
    p := seq(n, r requires 0 <= r < n => Dot(s, inv[r], x, n));
    assert x[a] != x[b];
  }
}
