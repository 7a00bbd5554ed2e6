/** The order of the peeling, always a column of least non-zero weight, and when it leaves no gap row. */
module LeastWeight {
  import opened Algebra
  import opened WeightSets
  import opened SparseMatrix
  import opened Peeling

  /** The rows that use none of the given columns. */
  ghost function Avoiding(rows: seq<seq<nat>>, cols: seq<nat>): (left: set<nat>)
    ensures forall r: nat :: r in left <==> r < |rows| && Avoids(rows[r], cols)
  {
    set r: nat | r < |rows| && Avoids(rows[r], cols)
  }

  ghost predicate Avoids(row: seq<nat>, cols: seq<nat>) {
    forall d :: d in cols ==> d !in row
  }

  /** Every column is used by none of the rows that are left, or by at least as many of them as col is. */
  ghost predicate Least(rows: seq<seq<nat>>, size: nat, left: set<nat>, col: nat)
    requires forall r :: r in left ==> r < |rows|
  {
    forall c :: 0 <= c < size ==>
      |UnsetIn(rows, left, c)| == 0 || |UnsetIn(rows, left, c)| >= |UnsetIn(rows, left, col)|
  }

  /** Every main column was one of least non-zero weight among the rows that use no main column chosen before it. */
  ghost predicate LeastFirst(rows: seq<seq<nat>>, size: nat, mainCols: seq<nat>) {
    forall k :: 0 <= k < |mainCols| ==> Least(rows, size, Avoiding(rows, mainCols[..k]), mainCols[k])
  }

  /** Between two rounds the unset rows are those that use no main column. */
  lemma UnsetAreAvoiding<H>(
    rows: seq<seq<nat>>, dense: seq<H>, size: nat, live: set<nat>, nodes: seq<WeightNode>, unset: set<nat>,
    t: Triangle)
    requires Peeled(rows, dense, size, live, nodes, unset, t, {})
    ensures unset == Avoiding(rows, t.mainCols)
  {
    hide Counted, Distinct, Below;
    forall r | r in unset
      ensures r < |rows| && Avoids(rows[r], t.mainCols)
    {
      forall d | d in t.mainCols
        ensures d !in rows[r]
      {
        assert d in Entries(t.mainCols);
      }
    }
    forall r: nat | r < |rows| && r !in unset
      ensures !Avoids(rows[r], t.mainCols)
    {
      SetRowMeets(rows, dense, t, unset, r);
    }
  }

  lemma SetRowMeets<H>(rows: seq<seq<nat>>, dense: seq<H>, t: Triangle, unset: set<nat>, r: nat)
    requires |dense| == |rows| && r < |rows| && r !in unset && Triangular(rows, t.mainRows, t.mainCols)
    requires GapRows(rows, dense, t.mainRows, t.mainCols, t.gapRows)
    requires SplitsRows(t.mainRows, t.gapRows, Below(|rows|) - unset)
    ensures !Avoids(rows[r], t.mainCols)
  {
    hide Distinct;
    assert r in Entries(t.mainRows + Firsts(t.gapRows));
    if r in t.mainRows {
      var k :| 0 <= k < |t.mainRows| && t.mainRows[k] == r;
      assert t.mainCols[k] in t.mainCols;
    } else {
      var i :| 0 <= i < |t.gapRows| && Firsts(t.gapRows)[i] == r;
      assert HasMainRow(rows, dense, t.mainRows, t.mainCols, t.gapRows[i]);
      var k: nat :| GapRow(rows, dense, t.mainRows, t.mainCols, t.gapRows[i], k);
      assert t.mainCols[k] in t.mainCols;
    }
  }

  /** A live column of least non-zero weight is used by the fewest unset rows among all columns. */
  lemma LeastChosen<H>(
    rows: seq<seq<nat>>, dense: seq<H>, size: nat, live: set<nat>, nodes: seq<WeightNode>, unset: set<nat>,
    t: Triangle, col: nat)
    requires Peeled(rows, dense, size, live, nodes, unset, t, {}) && col in live && col < |nodes|
    requires forall c :: c in live ==> c < |nodes|
    requires forall c :: c in live && nodes[c].weight > 0 ==> nodes[c].weight >= nodes[col].weight
    ensures unset == Avoiding(rows, t.mainCols) && Least(rows, size, unset, col)
  {
    hide Triangular, GapRows, SplitsRows, Distinct, Below;
    UnsetAreAvoiding(rows, dense, size, live, nodes, unset, t);
    assert col in Below(size) ==> col < size by { InBelow(size, col); }
    forall c | 0 <= c < size
      ensures |UnsetIn(rows, unset, c)| == 0 || |UnsetIn(rows, unset, c)| >= |UnsetIn(rows, unset, col)|
    {
      if c !in live {
        assert UnsetIn(rows, unset, c) == {};
      }
    }
  }

  lemma InBelow(n: nat, x: nat)
    ensures x in Below(n) <==> x < n
  {}

  /** Appending a column of least weight keeps the order. */
  lemma LeastAppend(rows: seq<seq<nat>>, size: nat, mainCols: seq<nat>, col: nat)
    requires LeastFirst(rows, size, mainCols) && Least(rows, size, Avoiding(rows, mainCols), col)
    ensures LeastFirst(rows, size, mainCols + [col])
  {
    hide Least, Avoiding;
    var cols := mainCols + [col];
    forall k | 0 <= k < |cols|
      ensures Least(rows, size, Avoiding(rows, cols[..k]), cols[k])
    {
      assert cols[..k] == mainCols[..k];
      assert mainCols[..|mainCols|] == mainCols;
    }
  }

  // The main columns, in their order, determine the whole triangulation.

  /** The listed rows that are unset, in their order. */
  ghost function UnsetOf(list: seq<nat>, unset: set<nat>): (found: seq<nat>)
    ensures forall r :: r in found <==> r in list && r in unset
  {
    if list == [] then []
    else UnsetOf(list[..|list| - 1], unset) + if list[|list| - 1] in unset then [list[|list| - 1]] else []
  }

  ghost function Paired(rows: seq<nat>, main: nat): (gapRows: seq<(nat, nat)>)
    ensures |gapRows| == |rows|
  {
    seq(|rows|, i requires 0 <= i < |rows| => (rows[i], main))
  }

  /** The first of the rows found in a column becomes its main row, the others gap rows of it, in their order. */
  ghost function Extended(t: Triangle, col: nat, found: seq<nat>): Triangle {
    if found == [] then t
    else Triangle(t.mainRows + [found[0]], t.mainCols + [col], t.gapRows + Paired(found[1..], found[0]))
  }

  /** The triangulation with these main columns: each takes the rows that use it and none of the columns before. */
  ghost function TriangleOf(rows: seq<seq<nat>>, cols: seq<nat>): Triangle {
    if cols == [] then Triangle([], [], [])
    else
      var init, col := cols[..|cols| - 1], cols[|cols| - 1];
      Extended(TriangleOf(rows, init), col, UnsetOf(ColumnOf(rows, col, |rows|), Avoiding(rows, init)))
  }

  lemma ExtendNext(t: Triangle, col: nat, found: seq<nat>, r: nat)
    ensures found == [] ==> Extended(t, col, found + [r]) == Triangle(t.mainRows + [r], t.mainCols + [col], t.gapRows)
    ensures found != [] ==>
      Extended(t, col, found + [r]) == Extended(t, col, found).(gapRows := Extended(t, col, found).gapRows +
        [(r, found[0])])
  {
    if found == [] {
      assert Extended(t, col, [r]).gapRows == t.gapRows;
    } else {
      assert (found + [r])[1..] == found[1..] + [r];
      assert Paired(found[1..] + [r], found[0]) == Paired(found[1..], found[0]) + [(r, found[0])];
      assert Extended(t, col, found + [r]).gapRows == Extended(t, col, found).gapRows + [(r, found[0])];
    }
  }

  lemma UnsetNext(list: seq<nat>, unset: set<nat>, k: nat)
    requires k < |list|
    ensures UnsetOf(list[..k + 1], unset) == UnsetOf(list[..k], unset) + if list[k] in unset then [list[k]] else []
  {
    assert list[..k + 1][..k] == list[..k];
  }

  /** The first k listed rows of a column are set: those that were unset extend the triangulation. */
  ghost predicate Progress(
    t0: Triangle, t: Triangle, col: nat, list: seq<nat>, unset0: set<nat>, unset: set<nat>, k: nat)
  {
    && k <= |list| && t == Extended(t0, col, UnsetOf(list[..k], unset0))
    && forall r :: r in unset <==> r in unset0 && r !in list[..k]
  }

  lemma NoProgress(t0: Triangle, col: nat, list: seq<nat>, unset0: set<nat>)
    ensures Progress(t0, t0, col, list, unset0, unset0, 0)
  {}

  /** Once a row is recorded, the last main row is one of those set for this column. */
  lemma ProgressShape(
    t0: Triangle, t: Triangle, col: nat, list: seq<nat>, unset0: set<nat>, unset: set<nat>, k: nat)
    requires Progress(t0, t, col, list, unset0, unset, k) && col !in t0.mainCols
    ensures unset <= unset0 && (col !in t.mainCols ==> t == t0)
    ensures col in t.mainCols ==> t.mainCols == t0.mainCols + [col] && t.mainRows != []
    ensures col in t.mainCols ==>
      var m := t.mainRows[|t.mainRows| - 1]; m in unset0 && m in list && m !in unset
    ensures k == |list| ==> t == Extended(t0, col, UnsetOf(list, unset0))
    ensures k == |list| ==> forall r :: r in list ==> r !in unset
  {
    assert list[..|list|] == list;
    var found := UnsetOf(list[..k], unset0);
    if found != [] {
      assert found[0] in found;
    }
  }

  /** If one of the listed rows was unset, the column has become a main column. */
  lemma SomeFound(t0: Triangle, t: Triangle, col: nat, list: seq<nat>, unset0: set<nat>)
    requires t == Extended(t0, col, UnsetOf(list, unset0)) && exists r :: r in list && r in unset0
    ensures t.mainCols == t0.mainCols + [col]
  {
    var r :| r in list && r in unset0;
    assert r in UnsetOf(list, unset0);
  }

  /** A row that is set already is passed over. */
  lemma ProgressSkip(
    t0: Triangle, t: Triangle, col: nat, list: seq<nat>, unset0: set<nat>, unset: set<nat>, k: nat)
    requires Progress(t0, t, col, list, unset0, unset, k) && k < |list| && list[k] !in unset
    requires forall i, j :: 0 <= i < j < |list| ==> list[i] < list[j]
    ensures Progress(t0, t, col, list, unset0, unset, k + 1)
  {
    UnsetNext(list, unset0, k);
    assert list[..k + 1] == list[..k] + [list[k]] && list[k] !in list[..k];
  }

  /** An unset row is recorded: as the main row if it is the first, as a gap row otherwise. */
  lemma ProgressSet(
    t0: Triangle, t: Triangle, col: nat, list: seq<nat>, unset0: set<nat>, unset: set<nat>, k: nat)
    requires Progress(t0, t, col, list, unset0, unset, k) && k < |list| && list[k] in unset && col !in t0.mainCols
    requires forall i, j :: 0 <= i < j < |list| ==> list[i] < list[j]
    ensures col !in t.mainCols ==>
      Progress(t0, Triangle(t.mainRows + [list[k]], t.mainCols + [col], t.gapRows), col, list, unset0,
               unset - {list[k]}, k + 1)
    ensures col in t.mainCols ==> t.mainRows != []
    ensures col in t.mainCols ==>
      Progress(t0, t.(gapRows := t.gapRows + [(list[k], t.mainRows[|t.mainRows| - 1])]), col, list, unset0,
               unset - {list[k]}, k + 1)
  {
    hide Extended, UnsetOf;
    UnsetNext(list, unset0, k);
    FoundTells(t0, col, UnsetOf(list[..k], unset0));
    ExtendNext(t0, col, UnsetOf(list[..k], unset0), list[k]);
    assert list[..k + 1] == list[..k] + [list[k]] && list[k] !in list[..k];
  }

  lemma FoundTells(t: Triangle, col: nat, found: seq<nat>)
    requires col !in t.mainCols
    ensures var next := Extended(t, col, found);
      && (col in next.mainCols <==> found != []) && (found == [] ==> next == t)
      && (found != [] ==> next.mainRows != [] && next.mainRows[|next.mainRows| - 1] == found[0])
  {}

  lemma TriangleNext(rows: seq<seq<nat>>, cols: seq<nat>, col: nat)
    ensures TriangleOf(rows, cols + [col]) ==
      Extended(TriangleOf(rows, cols), col, UnsetOf(ColumnOf(rows, col, |rows|), Avoiding(rows, cols)))
  {
    assert (cols + [col])[..|cols|] == cols;
  }

  // When the peeling leaves no gap row.

  /** Some column is used by exactly one of the given rows. */
  ghost predicate HasLeaf(rows: seq<seq<nat>>, some: set<nat>)
    requires forall r :: r in some ==> r < |rows|
  {
    exists c: nat :: |UnsetIn(rows, some, c)| == 1
  }

  /** In every non-empty set of rows some column is used by exactly one row. */
  ghost predicate Peelable(rows: seq<seq<nat>>) {
    forall some: set<nat> :: some != {} && (forall r :: r in some ==> r < |rows|) ==> HasLeaf(rows, some)
  }

  /** A column of least weight that two unset rows use means that the matrix cannot be peeled. */
  lemma LeastOfTwo(rows: seq<seq<nat>>, size: nat, left: set<nat>, col: nat)
    requires (forall r :: r in left ==> r < |rows|) && (forall r :: 0 <= r < |rows| ==> InRange(rows[r], size))
    requires Least(rows, size, left, col) && |UnsetIn(rows, left, col)| >= 2
    ensures !Peelable(rows)
  {
    NotEmpty(rows, left, col);
    assert !HasLeaf(rows, left) by {
      forall c: nat
        ensures |UnsetIn(rows, left, c)| != 1
      {
        UsedInRange(rows, size, left, c);
      }
    }
  }

  lemma NotEmpty(rows: seq<seq<nat>>, left: set<nat>, col: nat)
    requires (forall r :: r in left ==> r < |rows|) && |UnsetIn(rows, left, col)| > 0
    ensures left != {}
  {
    assert UnsetIn(rows, left, col) != {};
    var r :| r in UnsetIn(rows, left, col);
  }

  lemma UsedInRange(rows: seq<seq<nat>>, size: nat, left: set<nat>, c: nat)
    requires (forall r :: r in left ==> r < |rows|) && (forall r :: 0 <= r < |rows| ==> InRange(rows[r], size))
    ensures |UnsetIn(rows, left, c)| > 0 ==> c < size
  {
    if |UnsetIn(rows, left, c)| > 0 {
      var r :| r in UnsetIn(rows, left, c);
      var j :| 0 <= j < |rows[r]| && rows[r][j] == c;
    }
  }

  lemma TwoRows(rows: seq<seq<nat>>, left: set<nat>, col: nat, q: nat, r: nat)
    requires (forall i :: i in left ==> i < |rows|) && q in left && r in left && q != r
    requires col in rows[q] && col in rows[r]
    ensures |UnsetIn(rows, left, col)| >= 2
  {
    SubsetSize({q, r}, UnsetIn(rows, left, col));
  }

  /** A gap row and its main row both use a column that was of least weight. */
  lemma GapsMeanUnpeelable<H>(rows: seq<seq<nat>>, dense: seq<H>, size: nat, t: Triangle)
    requires Triangulated(rows, dense, size, t) && LeastFirst(rows, size, t.mainCols) && t.gapRows != []
    requires forall r :: 0 <= r < |rows| ==> InRange(rows[r], size)
    ensures !Peelable(rows)
  {
    hide SplitsRows, Distinct, Below, Peelable, Least;
    var gap := t.gapRows[0];
    assert HasMainRow(rows, dense, t.mainRows, t.mainCols, gap);
    var k: nat :| GapRow(rows, dense, t.mainRows, t.mainCols, gap, k);
    var left := Avoiding(rows, t.mainCols[..k]);
    AvoidsFirst(rows[gap.0], t.mainCols, k);
    AvoidsFirst(rows[gap.1], t.mainCols, k);
    TwoRows(rows, left, t.mainCols[k], gap.0, gap.1);
    LeastOfTwo(rows, size, left, t.mainCols[k]);
  }

  lemma AvoidsFirst(row: seq<nat>, cols: seq<nat>, k: nat)
    requires k <= |cols| && forall j :: 0 <= j < k ==> cols[j] !in row
    ensures Avoids(row, cols[..k])
  {}

  /** Without gap rows, the first main column of any set of rows is used by one of them alone. */
  lemma NoGapsMeanPeelable<H>(rows: seq<seq<nat>>, dense: seq<H>, size: nat, t: Triangle)
    requires Triangulated(rows, dense, size, t) && t.gapRows == []
    ensures Peelable(rows)
  {
    hide Distinct, GapRows, HasLeaf, Triangular, Below;
    assert t.mainRows + Firsts(t.gapRows) == t.mainRows;
    forall some: set<nat> | some != {} && (forall r :: r in some ==> r < |rows|)
      ensures HasLeaf(rows, some)
    {
      forall r | r in some
        ensures r in t.mainRows
      {
        InBelow(|rows|, r);
        assert r in Entries(t.mainRows);
      }
      var r :| r in some;
      var k :| 0 <= k < |t.mainRows| && t.mainRows[k] == r;
      FirstIsLeaf(rows, t.mainRows, t.mainCols, some, k);
    }
  }

  lemma {:induction false} FirstIsLeaf(
    rows: seq<seq<nat>>, mainRows: seq<nat>, mainCols: seq<nat>, some: set<nat>, k: nat)
    requires Triangular(rows, mainRows, mainCols) && forall r :: r in some ==> r < |rows| && r in mainRows
    requires k < |mainRows| && mainRows[k] in some
    ensures HasLeaf(rows, some)
    decreases k
  {
    if j :| 0 <= j < k && mainRows[j] in some {
      FirstIsLeaf(rows, mainRows, mainCols, some, j);
    } else {
      assert UnsetIn(rows, some, mainCols[k]) == {mainRows[k]};
    }
  }

  /** Taking columns of least weight first, the peeling leaves no gap row exactly when the matrix can be peeled. */
  lemma PeelableExactly<H>(rows: seq<seq<nat>>, dense: seq<H>, size: nat, t: Triangle)
    requires Triangulated(rows, dense, size, t) && LeastFirst(rows, size, t.mainCols)
    requires forall r :: 0 <= r < |rows| ==> InRange(rows[r], size)
    ensures t.gapRows == [] <==> Peelable(rows)
  {
    hide Triangulated, LeastFirst, Peelable;
    if t.gapRows == [] {
      NoGapsMeanPeelable(rows, dense, size, t);
    } else {
      GapsMeanUnpeelable(rows, dense, size, t);
    }
  }
}
