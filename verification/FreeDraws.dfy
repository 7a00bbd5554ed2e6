/** What random values in the free columns do to the gap rows: when a draw decodes, and when every draw does. */
module FreeDraws {
  import opened Algebra
  import opened WeightSets
  import opened SparseMatrix
  import opened Peeling
  import opened FCInverse

  // The remainder of a gap row depends on the matrix and the main rows alone.

  /** The sum of the listed rows, as a set of columns. */
  ghost function XorOf(rows: seq<seq<nat>>, list: seq<nat>): set<nat>
    requires InRange(list, |rows|)
  {
    if list == [] then {}
    else SymDiff(XorOf(rows, list[..|list| - 1]), Entries(rows[list[|list| - 1]]))
  }

  /** The sum of the main rows whose index is in a, among the first k. */
  ghost function MainXor(rows: seq<seq<nat>>, mainRows: seq<nat>, a: set<nat>, k: nat): set<nat>
    requires InRange(mainRows, |rows|) && k <= |mainRows|
  {
    if k == 0 then {}
    else if k - 1 in a then SymDiff(MainXor(rows, mainRows, a, k - 1), Entries(rows[mainRows[k - 1]]))
    else MainXor(rows, mainRows, a, k - 1)
  }

  lemma SymDiffShift(a: set<nat>, b: set<nat>, c: set<nat>)
    ensures SymDiff(SymDiff(a, b), c) == SymDiff(SymDiff(a, c), b)
    ensures SymDiff(SymDiff(a, b), c) == SymDiff(a, SymDiff(b, c))
    ensures SymDiff(SymDiff(a, b), b) == a
  {}

  /** Adding a main row once more toggles its index. */
  lemma {:induction false} ToggleIndex(rows: seq<seq<nat>>, mainRows: seq<nat>, a: set<nat>, j: nat, k: nat)
    requires InRange(mainRows, |rows|) && j < |mainRows| && k <= |mainRows|
    ensures MainXor(rows, mainRows, SymDiff(a, {j}), k) ==
      if j < k then SymDiff(MainXor(rows, mainRows, a, k), Entries(rows[mainRows[j]])) else MainXor(rows, mainRows,
        a, k)
  {
    if k > 0 {
      ToggleIndex(rows, mainRows, a, j, k - 1);
      var rest, last := MainXor(rows, mainRows, a, k - 1), Entries(rows[mainRows[k - 1]]);
      SymDiffShift(rest, last, Entries(rows[mainRows[j]]));
    }
  }

  /** A sum of main rows is the sum over a set of their indices. */
  lemma {:induction false} ListIsSet(rows: seq<seq<nat>>, mainRows: seq<nat>, list: seq<nat>) returns (a: set<nat>)
    requires InRange(mainRows, |rows|) && InRange(list, |rows|) && forall x :: x in list ==> x in mainRows
    ensures XorOf(rows, list) == MainXor(rows, mainRows, a, |mainRows|)
  {
    if list == [] {
      a := {};
      NoneAdded(rows, mainRows, a, |mainRows|);
    } else {
      a := ListIsSet(rows, mainRows, list[..|list| - 1]);
      assert list[|list| - 1] in mainRows;
      var j :| 0 <= j < |mainRows| && mainRows[j] == list[|list| - 1];
      ToggleIndex(rows, mainRows, a, j, |mainRows|);
      a := SymDiff(a, {j});
    }
  }

  lemma {:induction false} NoneAdded(rows: seq<seq<nat>>, mainRows: seq<nat>, a: set<nat>, k: nat)
    requires InRange(mainRows, |rows|) && k <= |mainRows| && forall i :: i in a ==> i >= k
    ensures MainXor(rows, mainRows, a, k) == {}
  {
    if k > 0 {
      NoneAdded(rows, mainRows, a, k - 1);
    }
  }

  /** The main column of the first added main row is not cleared by the later ones. */
  lemma {:induction false} FirstStays(
    rows: seq<seq<nat>>, mainRows: seq<nat>, mainCols: seq<nat>, a: set<nat>, first: nat, k: nat)
    requires Triangular(rows, mainRows, mainCols) && first < k <= |mainRows| && InRange(mainRows, |rows|)
    requires first in a && forall i :: i in a ==> i >= first
    ensures mainCols[first] in MainXor(rows, mainRows, a, k)
  {
    if k == first + 1 {
      NoneAdded(rows, mainRows, a, first);
    } else {
      FirstStays(rows, mainRows, mainCols, a, first, k - 1);
    }
  }

  lemma FirstSeen(rows: seq<seq<nat>>, mainRows: seq<nat>, mainCols: seq<nat>, a: set<nat>, first: nat)
    requires Triangular(rows, mainRows, mainCols) && first < |mainRows| && InRange(mainRows, |rows|)
    requires first in a && forall i :: i in a ==> i >= first
    ensures MainXor(rows, mainRows, a, |mainRows|) * Entries(mainCols) != {}
  {
    FirstStays(rows, mainRows, mainCols, a, first, |mainRows|);
    assert mainCols[first] in MainXor(rows, mainRows, a, |mainRows|) * Entries(mainCols);
  }

  /** The main rows are independent on the main columns. */
  lemma MainRowsIndependent(
    rows: seq<seq<nat>>, mainRows: seq<nat>, mainCols: seq<nat>, a: set<nat>, k: nat)
    requires Triangular(rows, mainRows, mainCols) && InRange(mainRows, |rows|) && k <= |mainRows|
    requires MainXor(rows, mainRows, a, |mainRows|) !! Entries(mainCols)
    ensures forall i :: i in a ==> i >= k
    ensures MainXor(rows, mainRows, a, k) == {}
  {
    if k > 0 {
      MainRowsIndependent(rows, mainRows, mainCols, a, k - 1);
      if k - 1 in a {
        FirstSeen(rows, mainRows, mainCols, a, k - 1);
        assert false;
      }
    }
  }

  lemma {:induction false} ResidualIsXor(rows: seq<seq<nat>>, r: nat, added: seq<nat>)
    requires r < |rows| && InRange(added, |rows|)
    ensures Residual(rows, r, added) == SymDiff(Entries(rows[r]), XorOf(rows, added))
  {
    if added != [] {
      var init := added[..|added| - 1];
      ResidualIsXor(rows, r, init);
      SymDiffShift(Entries(rows[r]), XorOf(rows, init), Entries(rows[added[|added| - 1]]));
    }
  }

  lemma {:induction false} XorOfConcat(rows: seq<seq<nat>>, a: seq<nat>, b: seq<nat>)
    requires InRange(a, |rows|) && InRange(b, |rows|)
    ensures XorOf(rows, a + b) == SymDiff(XorOf(rows, a), XorOf(rows, b))
  {
    if b == [] {
      assert a + b == a;
    } else {
      XorOfConcat(rows, a, b[..|b| - 1]);
      assert (a + b)[..|a + b| - 1] == a + b[..|b| - 1];
      SymDiffShift(XorOf(rows, a), XorOf(rows, b[..|b| - 1]), Entries(rows[b[|b| - 1]]));
    }
  }

  /** Whatever main rows clear a gap row on the main columns, they leave the same remainder. */
  lemma RemainderUnique(
    rows: seq<seq<nat>>, mainRows: seq<nat>, mainCols: seq<nat>, r: nat, a: seq<nat>, b: seq<nat>)
    requires Triangular(rows, mainRows, mainCols)
    requires ClearsGap(rows, mainRows, mainCols, r, a) && ClearsGap(rows, mainRows, mainCols, r, b)
    ensures Residual(rows, r, a) == Residual(rows, r, b)
  {
    ResidualIsXor(rows, r, a);
    ResidualIsXor(rows, r, b);
    XorOfConcat(rows, a, b);
    TriangularShape(rows, mainRows, mainCols);
    var indices := ListIsSet(rows, mainRows, a + b);
    SameUpTo(Entries(rows[r]), XorOf(rows, a), XorOf(rows, b), Entries(mainCols));
    MainRowsIndependent(rows, mainRows, mainCols, indices, |mainRows|);
  }

  lemma SameUpTo(e: set<nat>, x: set<nat>, y: set<nat>, cols: set<nat>)
    requires SymDiff(e, x) !! cols && SymDiff(e, y) !! cols
    ensures SymDiff(x, y) !! cols
    ensures SymDiff(x, y) == {} ==> SymDiff(e, x) == SymDiff(e, y)
  {
    forall c | c in SymDiff(x, y)
      ensures c !in cols
    {
      assert c in SymDiff(e, x) || c in SymDiff(e, y);
    }
    if SymDiff(x, y) == {} {
      assert x == y by {
        assert forall c :: c in x && c !in y ==> c in SymDiff(x, y);
        assert forall c :: c in y && c !in x ==> c in SymDiff(x, y);
      }
    }
  }

  /** Row r is a sum of main rows. */
  ghost predicate Spanned(rows: seq<seq<nat>>, mainRows: seq<nat>, r: nat) {
    exists added: seq<nat> :: SumsTo(rows, mainRows, r, added)
  }

  ghost predicate SumsTo(rows: seq<seq<nat>>, mainRows: seq<nat>, r: nat, added: seq<nat>) {
    && r < |rows| && InRange(added, |rows|) && (forall x :: x in added ==> x in mainRows)
    && XorOf(rows, added) == Entries(rows[r])
  }

  /** Every gap row is a sum of main rows: the sparse matrix has no more rank than the main rows give it. */
  ghost predicate GapsSpanned(rows: seq<seq<nat>>, t: Triangle) {
    forall i :: 0 <= i < |t.gapRows| ==> Spanned(rows, t.mainRows, t.gapRows[i].0)
  }

  /** A cleared gap row vanishes exactly when it is a sum of main rows. */
  lemma VanishesIffSpanned(
    rows: seq<seq<nat>>, mainRows: seq<nat>, mainCols: seq<nat>, r: nat, added: seq<nat>)
    requires Triangular(rows, mainRows, mainCols) && ClearsGap(rows, mainRows, mainCols, r, added)
    ensures Residual(rows, r, added) == {} <==> Spanned(rows, mainRows, r)
  {
    ResidualIsXor(rows, r, added);
    if Residual(rows, r, added) == {} {
      SameUpTo(Entries(rows[r]), Entries(rows[r]), XorOf(rows, added), {});
      EqualSets(Entries(rows[r]), XorOf(rows, added));
      assert SumsTo(rows, mainRows, r, added);
    }
    if Spanned(rows, mainRows, r) {
      var b: seq<nat> :| SumsTo(rows, mainRows, r, b);
      ResidualIsXor(rows, r, b);
      RemainderUnique(rows, mainRows, mainCols, r, added, b);
    }
  }

  lemma EqualSets(a: set<nat>, b: set<nat>)
    requires SymDiff(a, b) == {}
    ensures a == b
  {
    assert forall c :: c in a && c !in b ==> c in SymDiff(a, b);
    assert forall c :: c in b && c !in a ==> c in SymDiff(a, b);
  }

  // Draws.

  /** The drawn values sum to zero on what remains of every gap row. */
  ghost predicate DrawCancels<F, V>(
    s: Space<F, V>, rows: seq<seq<nat>>, t: Triangle, fcinv: seq<seq<nat>>, values: seq<V>)
  {
    && |fcinv| == |t.gapRows|
    && forall i :: 0 <= i < |t.gapRows| ==> RowCancels(s, rows, t.gapRows[i].0, fcinv[i], values)
  }

  ghost predicate RowCancels<F, V>(s: Space<F, V>, rows: seq<seq<nat>>, r: nat, added: seq<nat>, values: seq<V>) {
    && r < |rows| && InRange(added, |rows|)
    && MaskSum(s, Residual(rows, r, added), values, |values|) == s.vzero
  }

  /** Values of size n, all zero but the one at c. */
  function Single<V>(zero: V, n: nat, c: nat, v: V): (values: seq<V>)
    ensures |values| == n
  {
    seq(n, j => if j == c then v else zero)
  }

  lemma {:induction false} SingleSum<F(!new), V(!new)>(s: Space<F, V>, mask: set<nat>, n: nat, c: nat, v: V, k: nat)
    requires Laws(s) && k <= n && c in mask
    ensures MaskSum(s, mask, Single(s.vzero, n, c, v), k) == if c < k then v else s.vzero
  {
    hide XorLaws;
    if k > 0 {
      SingleSum(s, mask, n, c, v, k - 1);
      XorZero(s.vzero, s.xor, s.vzero);
      XorZero(s.vzero, s.xor, v);
    }
  }

  /** Every draw cancels a gap row exactly when nothing remains of it. */
  lemma EveryDrawCancelsRow<F(!new), V(!new)>(
    s: Space<F, V>, rows: seq<seq<nat>>, r: nat, added: seq<nat>, size: nat, v: V)
    requires Laws(s) && v != s.vzero && r < |rows| && InRange(added, |rows|)
    requires forall c :: c in Residual(rows, r, added) ==> c < size
    ensures Residual(rows, r, added) == {} ==>
      forall values: seq<V> | |values| == size :: RowCancels(s, rows, r, added, values)
    ensures Residual(rows, r, added) != {} ==>
      exists c: nat :: !RowCancels(s, rows, r, added, Single(s.vzero, size, c, v))
  {
    hide XorLaws, MaskSum;
    var left := Residual(rows, r, added);
    if left == {} {
      forall values: seq<V> | |values| == size
        ensures RowCancels(s, rows, r, added, values)
      {
        MaskSumZero(s, {}, values, size);
      }
    } else {
      var c :| c in left;
      SingleSum(s, left, size, c, v, size);
      assert !RowCancels(s, rows, r, added, Single(s.vzero, size, c, v));
    }
  }

  /** Every draw decodes exactly when each gap row is a sum of main rows. */
  lemma EveryDrawCancels<F(!new), V(!new)>(
    s: Space<F, V>, rows: seq<seq<nat>>, t: Triangle, fcinv: seq<seq<nat>>, size: nat, v: V)
    requires Laws(s) && v != s.vzero && Triangular(rows, t.mainRows, t.mainCols)
    requires ClearsGaps(rows, t.mainRows, t.mainCols, t.gapRows, fcinv)
    requires forall q :: 0 <= q < |rows| ==> InRange(rows[q], size)
    ensures (forall values: seq<V> | |values| == size :: DrawCancels(s, rows, t, fcinv, values)) <==>
      GapsSpanned(rows, t)
  {
    hide Laws, MaskSum, Triangular, RowCancels, Spanned;
    forall i | 0 <= i < |t.gapRows|
      ensures (forall values: seq<V> | |values| == size :: RowCancels(s, rows, t.gapRows[i].0, fcinv[i], values)) <==>
        Spanned(rows, t.mainRows, t.gapRows[i].0)
    {
      var r, added := t.gapRows[i].0, fcinv[i];
      assert ClearsGap(rows, t.mainRows, t.mainCols, r, added);
      ResidualRange(rows, r, added, size);
      EveryDrawCancelsRow(s, rows, r, added, size, v);
      VanishesIffSpanned(rows, t.mainRows, t.mainCols, r, added);
    }
    if forall values: seq<V> | |values| == size :: DrawCancels(s, rows, t, fcinv, values) {
      forall i | 0 <= i < |t.gapRows|
        ensures Spanned(rows, t.mainRows, t.gapRows[i].0)
      {
        forall values: seq<V> | |values| == size
          ensures RowCancels(s, rows, t.gapRows[i].0, fcinv[i], values)
        {
          assert DrawCancels(s, rows, t, fcinv, values);
        }
      }
    }
  }

  lemma {:induction false} ResidualRange(rows: seq<seq<nat>>, r: nat, added: seq<nat>, size: nat)
    requires r < |rows| && InRange(added, |rows|)
    requires forall q :: 0 <= q < |rows| ==> InRange(rows[q], size)
    ensures forall c :: c in Residual(rows, r, added) ==> c < size
  {
    if added != [] {
      ResidualRange(rows, r, added[..|added| - 1], size);
    }
  }

  lemma {:induction false} MaskSumAbove<F(!new), V(!new)>(s: Space<F, V>, mask: set<nat>, p: seq<V>, m: nat, n: nat)
    requires Laws(s) && m <= n <= |p| && forall c :: c in mask ==> c < m
    ensures MaskSum(s, mask, p, n) == MaskSum(s, mask, p, m)
  {
    if m < n {
      MaskSumAbove(s, mask, p, m, n - 1);
      XorZero(s.vzero, s.xor, MaskSum(s, mask, p, m));
    }
  }

  /** Only the drawn values matter, because nothing of a gap row remains on the main columns. */
  lemma DrawnSum<F(!new), V(!new)>(
    s: Space<F, V>, rows: seq<seq<nat>>, t: Triangle, r: nat, added: seq<nat>, p: seq<V>, values: seq<V>)
    requires Laws(s) && ClearsGap(rows, t.mainRows, t.mainCols, r, added) && |values| <= |p|
    requires forall q :: 0 <= q < |rows| ==> InRange(rows[q], |values|)
    requires forall c :: 0 <= c < |values| && c !in t.mainCols ==> p[c] == values[c]
    ensures MaskSum(s, Residual(rows, r, added), p, |p|) == MaskSum(s, Residual(rows, r, added), values, |values|)
  {
    hide Laws, MaskSum;
    var left := Residual(rows, r, added);
    ResidualRange(rows, r, added, |values|);
    MaskSumAbove(s, left, p, |values|, |p|);
    forall c | c in left && c < |values|
      ensures p[c] == values[c]
    {
      assert c !in Entries(t.mainCols);
    }
    MaskSumAgree(s, left, p, values, |values|);
  }

  // A draw that does not decode.

  /** Three rows of four columns, of which no two are equal. */
  function ThreeRows(): seq<seq<nat>> {
    [[0, 1, 2], [0, 1, 3], [0, 2, 3]]
  }

  /** What the peeling makes of them: column 3 is peeled first, its second row is a gap row. */
  function ThreeRowsTriangle(): Triangle {
    Triangle([1, 0], [3, 2], [(2, 1)])
  }

  lemma ThreeRowsPeeled<H>(dense: seq<H>)
    requires |dense| == 3 && dense[1] != dense[2]
    ensures Triangulated(ThreeRows(), dense, 4, ThreeRowsTriangle())
    ensures ClearsGaps(ThreeRows(), [1, 0], [3, 2], [(2, 1)], [[1, 0]])
  {
    hide Triangular, SplitsRows, GapRow, HasMainRow, ClearsGap, Below, Distinct, Entries;
    ThreeRowsTriangular();
    ThreeRowsGap(dense);
    ThreeRowsSplit();
    ThreeRowsCleared();
    var t := ThreeRowsTriangle();
    assert |ThreeRows()| == 3;
    assert Triangular(ThreeRows(), t.mainRows, t.mainCols);
    assert GapRows(ThreeRows(), dense, t.mainRows, t.mainCols, t.gapRows);
    assert SplitsRows(t.mainRows, t.gapRows, Below(3));
  }

  lemma ThreeRowsCleared()
    ensures ClearsGap(ThreeRows(), [1, 0], [3, 2], 2, [1, 0])
  {
    hide Residual;
    ThreeRowsLeft();
  }

  lemma ThreeRowsTriangular()
    ensures Triangular(ThreeRows(), [1, 0], [3, 2])
  {}

  lemma ThreeRowsGap<H>(dense: seq<H>)
    requires |dense| == 3 && dense[1] != dense[2]
    ensures HasMainRow(ThreeRows(), dense, [1, 0], [3, 2], (2, 1))
  {
    assert GapRow(ThreeRows(), dense, [1, 0], [3, 2], (2, 1), 0);
  }

  lemma ThreeRowsSplit()
    ensures SplitsRows([1, 0], [(2, 1)], Below(3))
    ensures Distinct(ThreeRowsTriangle().mainCols) && Entries(ThreeRowsTriangle().mainCols) <= Below(4)
  {
    hide Distinct, Entries, Below;
    ThreeDistinct(1, 0, 2);
    TwoDistinct(3, 2);
    SmallSets();
    assert Firsts([(2, 1)]) == [2];
    assert [1, 0] + [2] == [1, 0, 2];
  }

  lemma ThreeDistinct(a: nat, b: nat, c: nat)
    requires a != b && a != c && b != c
    ensures Distinct<nat>([a, b, c]) && Entries<nat>([a, b, c]) == {a, b, c}
  {}

  lemma TwoDistinct(a: nat, b: nat)
    requires a != b
    ensures Distinct<nat>([a, b]) && Entries<nat>([a, b]) == {a, b}
  {}

  lemma SmallSets()
    ensures {1, 0, 2} == Below(3) && {3, 2} <= Below(4)
  {}

  lemma ThreeRowsLeft()
    ensures Residual(ThreeRows(), 2, [1, 0]) == {0}
  {
    var rows := ThreeRows();
    assert Entries(rows[0]) == {0, 1, 2} && Entries(rows[1]) == {0, 1, 3} && Entries(rows[2]) == {0, 2, 3};
    assert [1, 0][..1] == [1] && [1][..0] == [];
    assert Residual(rows, 2, []) == {0, 2, 3};
    assert Residual(rows, 2, [1]) == {1, 2};
  }

  lemma OneGap<F, V>(
    s: Space<F, V>, rows: seq<seq<nat>>, t: Triangle, gap: (nat, nat), added: seq<nat>, values: seq<V>)
    requires t.gapRows == [gap]
    ensures DrawCancels(s, rows, t, [added], values) <==> RowCancels(s, rows, gap.0, added, values)
  {
    hide RowCancels;
    assert t.gapRows[0] == gap && [added][0] == added;
  }

  /** A draw decodes these three rows exactly when it is zero in column 0. */
  lemma ThreeRowsCancel<F(!new), V(!new)>(s: Space<F, V>, values: seq<V>)
    requires Laws(s) && |values| == 4
    ensures DrawCancels(s, ThreeRows(), ThreeRowsTriangle(), [[1, 0]], values) <==> values[0] == s.vzero
  {
    hide XorLaws, MaskSum, Residual;
    ThreeRowsLeft();
    MaskSumSingle(s, 0, values, 4);
    OneGap(s, ThreeRows(), ThreeRowsTriangle(), (2, 1), [1, 0], values);
  }

  /** Columns that agree on all listed rows agree on their sum. */
  lemma {:induction false} AgreeOnXor(rows: seq<seq<nat>>, list: seq<nat>, c: nat, d: nat)
    requires InRange(list, |rows|) && forall x :: x in list ==> (c in rows[x] <==> d in rows[x])
    ensures c in XorOf(rows, list) <==> d in XorOf(rows, list)
  {
    if list != [] {
      AgreeOnXor(rows, list[..|list| - 1], c, d);
    }
  }

  /** None of the three rows is a sum of others. */
  lemma NoSum(added: seq<nat>, r: nat)
    requires r < 3 && InRange(added, 3) && r !in added
    ensures XorOf(ThreeRows(), added) != Entries(ThreeRows()[r])
  {
    hide XorOf;
    forall x | x in added
      ensures 0 in ThreeRows()[x] <==> 3 - r in ThreeRows()[x]
    {
      assert x == 0 || x == 1 || x == 2;
    }
    AgreeOnXor(ThreeRows(), added, 0, 3 - r);
    assert 0 in Entries(ThreeRows()[r]) && 3 - r !in Entries(ThreeRows()[r]);
  }

  lemma ThreeRowsIndependent(mainRows: seq<nat>, r: nat)
    requires r < 3 && r !in mainRows
    ensures !Spanned(ThreeRows(), mainRows, r)
  {
    hide XorOf;
    forall added: seq<nat>
      ensures !SumsTo(ThreeRows(), mainRows, r, added)
    {
      if InRange(added, 3) && forall x :: x in added ==> x in mainRows {
        NoSum(added, r);
      }
    }
  }

  /** However these rows are triangulated, some draw does not decode them. */
  lemma ThreeRowsFail<H>(dense: seq<H>, t: Triangle)
    requires Triangulated(ThreeRows(), dense, 4, t)
    ensures !GapsSpanned(ThreeRows(), t)
  {
    hide Spanned, GapRows;
    if t.gapRows == [] {
      NotAllMain(dense, t);
    } else {
      var r := t.gapRows[0].0;
      GapIsNoMain(t);
      ThreeRowsIndependent(t.mainRows, r);
    }
  }

  lemma GapIsNoMain(t: Triangle)
    requires SplitsRows(t.mainRows, t.gapRows, Below(3)) && t.gapRows != []
    ensures t.gapRows[0].0 < 3 && t.gapRows[0].0 !in t.mainRows
  {
    var all := t.mainRows + Firsts(t.gapRows);
    var m := |t.mainRows|;
    assert all[m] == t.gapRows[0].0 && all[m] in Entries(all);
    assert forall k :: 0 <= k < m ==> all[k] == t.mainRows[k] && all[k] != all[m];
  }

  /** Every column is in two rows: the main row of the first main column leaves a row that is no main row. */
  lemma NotAllMain<H>(dense: seq<H>, t: Triangle)
    requires Triangulated(ThreeRows(), dense, 4, t)
    ensures t.gapRows != []
  {
    hide GapRows, Distinct;
    var other := 0;
    if t.mainRows != [] {
      other := SecondRow(t.mainCols[0], t.mainRows[0]);
    }
    forall k | 0 <= k < |t.mainRows|
      ensures t.mainRows[k] != other
    {
    }
    assert other in Below(3) && other in Entries(t.mainRows + Firsts(t.gapRows));
  }

  lemma SecondRow(c: nat, r: nat) returns (other: nat)
    requires r < 3 && c in ThreeRows()[r]
    ensures other < 3 && other != r && c in ThreeRows()[other]
  {
    var rows := ThreeRows();
    assert c == 0 || c == 1 || c == 2 || c == 3;
    other := if r != 0 && c in rows[0] then 0 else if r != 1 && c in rows[1] then 1 else 2;
  }
}
