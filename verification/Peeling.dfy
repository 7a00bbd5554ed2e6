/** The invariant of the peeling and how each of its steps keeps it. */
module Peeling {
  import opened Algebra
  import opened WeightSets
  import opened SparseMatrix

  datatype Triangle = Triangle(mainRows: seq<nat>, mainCols: seq<nat>, gapRows: seq<(nat, nat)>)

  /** The weight of a live column counts its unset rows; every other column has weight zero. */
  ghost predicate Counted(rows: seq<seq<nat>>, size: nat, live: set<nat>, nodes: seq<WeightNode>, unset: set<nat>)
    requires forall r :: r in unset ==> r < |rows|
  {
    && size <= |nodes| && live <= Below(size)
    && forall c :: 0 <= c < size ==> nodes[c].weight == if c in live then |UnsetIn(rows, unset, c)| else 0
  }

  /** Unset rows use only the given columns. */
  ghost predicate Sees(rows: seq<seq<nat>>, columns: set<nat>, unset: set<nat>)
    requires forall r :: r in unset ==> r < |rows|
  {
    forall r, c :: r in unset && c in rows[r] ==> c in columns
  }

  /** The live columns, the main columns and the current column make up all columns; unset rows use none of the
      peeled ones. */
  ghost predicate Columns(
    rows: seq<seq<nat>>, size: nat, live: set<nat>, unset: set<nat>, mainCols: seq<nat>, current: set<nat>)
    requires forall r :: r in unset ==> r < |rows|
  {
    && Distinct(mainCols)
    && live !! (Entries(mainCols) + current)
    && live + Entries(mainCols) + current == Below(size)
    && Sees(rows, live + current, unset)
  }

  /** The state of the peeling; current is the column that is being peeled, if any. */
  ghost predicate Peeled<H>(
    rows: seq<seq<nat>>, dense: seq<H>, size: nat, live: set<nat>, nodes: seq<WeightNode>, unset: set<nat>,
    t: Triangle, current: set<nat>)
  {
    && |dense| == |rows|
    && (forall r :: r in unset ==> r < |rows|)
    && Counted(rows, size, live, nodes, unset)
    && Columns(rows, size, live, unset, t.mainCols, current)
    && Triangular(rows, t.mainRows, t.mainCols)
    && GapRows(rows, dense, t.mainRows, t.mainCols, t.gapRows)
    && SplitsRows(t.mainRows, t.gapRows, Below(|rows|) - unset)
  }

  lemma NothingPeeled<H>(rows: seq<seq<nat>>, dense: seq<H>, size: nat, nodes: seq<WeightNode>)
    requires |dense| == |rows|
    requires forall r :: r in Below(|rows|) ==> r < |rows|
    requires Counted(rows, size, Below(size), nodes, Below(|rows|))
    requires forall r :: 0 <= r < |rows| ==> InRange(rows[r], size)
    ensures Peeled(rows, dense, size, Below(size), nodes, Below(|rows|), Triangle([], [], []), {})
  {
    hide Counted, Columns, SplitsRows, Below;
    NoColumns(rows, size, Below(|rows|));
    SplitNone(Below(|rows|));
  }

  lemma NoColumns(rows: seq<seq<nat>>, size: nat, unset: set<nat>)
    requires forall r :: r in unset ==> r < |rows|
    requires forall r :: 0 <= r < |rows| ==> InRange(rows[r], size)
    ensures Columns(rows, size, Below(size), unset, [], {})
  {
    assert Entries<nat>([]) == {};
  }

  lemma SplitNone(all: set<nat>)
    ensures SplitsRows([], [], all - all)
  {
    assert [] + Firsts([]) == [];
  }

  /** Taking a column out of the structure makes it the current one. */
  lemma OpenColumn<H>(
    rows: seq<seq<nat>>, dense: seq<H>, size: nat, live: set<nat>, nodes: seq<WeightNode>, nodes': seq<WeightNode>,
    unset: set<nat>, t: Triangle, col: nat)
    requires Peeled(rows, dense, size, live, nodes, unset, t, {}) && col in live && |nodes'| == |nodes|
    requires col < |nodes| && nodes'[col].weight == 0
    requires forall c :: 0 <= c < |nodes| && c != col ==> nodes'[c].weight == nodes[c].weight
    ensures Peeled(rows, dense, size, live - {col}, nodes', unset, t, {col})
    ensures col !in t.mainCols
  {
    hide Triangular, GapRows, SplitsRows, Counted, Columns;
    OpenCounted(rows, size, live, nodes, nodes', unset, col);
    OpenColumns(rows, size, live, unset, t.mainCols, col);
  }

  lemma OpenCounted(
    rows: seq<seq<nat>>, size: nat, live: set<nat>, nodes: seq<WeightNode>, nodes': seq<WeightNode>,
    unset: set<nat>, col: nat)
    requires (forall r :: r in unset ==> r < |rows|) && |nodes'| == |nodes|
    requires Counted(rows, size, live, nodes, unset)
    requires col < |nodes| && nodes'[col].weight == 0
    requires forall c :: 0 <= c < |nodes| && c != col ==> nodes'[c].weight == nodes[c].weight
    ensures Counted(rows, size, live - {col}, nodes', unset)
  {
  }

  lemma OpenColumns(rows: seq<seq<nat>>, size: nat, live: set<nat>, unset: set<nat>, mainCols: seq<nat>, col: nat)
    requires forall r :: r in unset ==> r < |rows|
    requires Columns(rows, size, live, unset, mainCols, {}) && col in live
    ensures Columns(rows, size, live - {col}, unset, mainCols, {col})
    ensures col !in mainCols
  {
    hide Sees, Below, Distinct, Entries;
    MoveColumn(live, Entries(mainCols), col);
    EntriesOf(mainCols, col);
  }

  lemma MoveColumn(live: set<nat>, main: set<nat>, col: nat)
    requires col in live
    ensures live - {col} + {col} == live + {} == live && live - {col} + main + {col} == live + main + {}
    ensures live !! (main + {}) ==> (live - {col}) !! (main + {col}) && col !in main
  {}

  lemma EntriesOf(row: seq<nat>, x: nat)
    ensures x in Entries(row) <==> x in row
  {}

  /** The live columns of a row weigh one less, all other columns the same. */
  ghost predicate Lowered(nodes: seq<WeightNode>, nodes': seq<WeightNode>, live: set<nat>, row: seq<nat>) {
    |nodes'| == |nodes| && forall c :: 0 <= c < |nodes| ==>
      nodes'[c].weight == nodes[c].weight - if c in row && c in live then 1 else 0
  }

  /** Setting a row lowers the weights of its live columns, whether the row becomes a main row or a gap row. */
  lemma CountRow(
    rows: seq<seq<nat>>, size: nat, live: set<nat>, nodes: seq<WeightNode>, nodes': seq<WeightNode>,
    unset: set<nat>, r: nat)
    requires (forall q :: q in unset ==> q < |rows|) && r in unset
    requires Counted(rows, size, live, nodes, unset) && Lowered(nodes, nodes', live, rows[r])
    ensures Counted(rows, size, live, nodes', unset - {r})
  {
    forall c | 0 <= c < size
      ensures nodes'[c].weight == if c in live then |UnsetIn(rows, unset - {r}, c)| else 0
    {
      UnsetStep(rows, unset, r, c);
    }
  }

  lemma {:induction false} FirstsAppend(gapRows: seq<(nat, nat)>, g: (nat, nat))
    ensures Firsts(gapRows + [g]) == Firsts(gapRows) + [g.0]
  {
    assert (gapRows + [g])[..|gapRows|] == gapRows;
  }

  lemma DistinctAppend(s: seq<nat>, x: nat)
    requires Distinct(s) && x !in s
    ensures Distinct(s + [x]) && Entries(s + [x]) == Entries(s) + {x}
  {
  }

  lemma DistinctInsert(s: seq<nat>, u: seq<nat>, x: nat)
    requires Distinct(s + u) && x !in s + u
    ensures Distinct(s + [x] + u) && Entries(s + [x] + u) == Entries(s + u) + {x}
  {
    var a, b := s + u, s + [x] + u;
    forall i, j | 0 <= i < j < |b|
      ensures b[i] != b[j]
    {
      assert i != |s| ==> b[i] == a[if i < |s| then i else i - 1];
      assert j != |s| ==> b[j] == a[if j < |s| then j else j - 1];
      assert forall k :: 0 <= k < |a| ==> a[k] in a;
    }
    assert forall k :: 0 <= k < |s| ==> a[k] == s[k];
    assert forall k :: 0 <= k < |u| ==> a[|s| + k] == u[k];
  }

  lemma TriangularAppend(rows: seq<seq<nat>>, t: Triangle, r: nat, c: nat)
    requires Triangular(rows, t.mainRows, t.mainCols)
    requires r < |rows| && c in rows[r] && forall d :: d in t.mainCols ==> d !in rows[r]
    ensures Triangular(rows, t.mainRows + [r], t.mainCols + [c])
  {
    var cols := t.mainCols + [c];
    forall j | 0 <= j < |t.mainCols|
      ensures cols[j] !in rows[r]
    {
      assert cols[j] in t.mainCols;
    }
  }

  lemma GapRowsKeep<H>(rows: seq<seq<nat>>, dense: seq<H>, t: Triangle, r: nat, c: nat)
    requires |dense| == |rows| && |t.mainRows| == |t.mainCols|
    requires GapRows(rows, dense, t.mainRows, t.mainCols, t.gapRows)
    ensures GapRows(rows, dense, t.mainRows + [r], t.mainCols + [c], t.gapRows)
  {
    forall i | 0 <= i < |t.gapRows|
      ensures HasMainRow(rows, dense, t.mainRows + [r], t.mainCols + [c], t.gapRows[i])
    {
      assert HasMainRow(rows, dense, t.mainRows, t.mainCols, t.gapRows[i]);
      var k: nat :| GapRow(rows, dense, t.mainRows, t.mainCols, t.gapRows[i], k);
      assert GapRow(rows, dense, t.mainRows + [r], t.mainCols + [c], t.gapRows[i], k);
    }
  }

  lemma SplitMain(t: Triangle, n: nat, unset: set<nat>, r: nat)
    requires SplitsRows(t.mainRows, t.gapRows, Below(n) - unset) && r in unset && r < n
    ensures SplitsRows(t.mainRows + [r], t.gapRows, Below(n) - (unset - {r}))
  {
    var u := Firsts(t.gapRows);
    assert r !in Entries(t.mainRows + u);
    DistinctInsert(t.mainRows, u, r);
  }

  lemma SplitGap(t: Triangle, n: nat, unset: set<nat>, g: (nat, nat))
    requires SplitsRows(t.mainRows, t.gapRows, Below(n) - unset) && g.0 in unset && g.0 < n
    ensures SplitsRows(t.mainRows, t.gapRows + [g], Below(n) - (unset - {g.0}))
  {
    var u := Firsts(t.gapRows);
    assert g.0 !in Entries(t.mainRows + u);
    FirstsAppend(t.gapRows, g);
    DistinctAppend(t.mainRows + u, g.0);
    assert t.mainRows + u + [g.0] == t.mainRows + Firsts(t.gapRows + [g]);
  }

  /** An unset row of the current column contains no column chosen earlier. */
  lemma UnsetAvoids<H>(
    rows: seq<seq<nat>>, dense: seq<H>, size: nat, live: set<nat>, nodes: seq<WeightNode>, unset: set<nat>,
    t: Triangle, col: nat, r: nat, d: nat)
    requires Peeled(rows, dense, size, live, nodes, unset, t, {col}) && r in unset
    requires d in t.mainCols && d != col
    ensures r < |rows| && d !in rows[r]
  {
    assert d in Entries(t.mainCols);
  }

  /** The first unset row of the current column becomes a main row. */
  lemma AddMain<H>(
    rows: seq<seq<nat>>, dense: seq<H>, size: nat, live: set<nat>, nodes: seq<WeightNode>, nodes': seq<WeightNode>,
    unset: set<nat>, t: Triangle, col: nat, r: nat)
    requires Peeled(rows, dense, size, live, nodes, unset, t, {col}) && col !in t.mainCols
    requires r in unset && col in rows[r]
    requires Counted(rows, size, live, nodes', unset - {r})
    ensures Peeled(rows, dense, size, live, nodes', unset - {r},
                   Triangle(t.mainRows + [r], t.mainCols + [col], t.gapRows), {col})
  {
    hide Triangular, GapRows, SplitsRows, Counted, Columns;
    forall d | d in t.mainCols
      ensures d !in rows[r]
    {
      UnsetAvoids(rows, dense, size, live, nodes, unset, t, col, r, d);
    }
    TriangularAppend(rows, t, r, col);
    TriangularSizes(rows, t);
    GapRowsKeep(rows, dense, t, r, col);
    SplitMain(t, |rows|, unset, r);
    AddColumn(rows, size, live, unset, t.mainCols, col, r);
  }

  lemma TriangularSizes(rows: seq<seq<nat>>, t: Triangle)
    requires Triangular(rows, t.mainRows, t.mainCols)
    ensures |t.mainRows| == |t.mainCols|
  {
  }

  lemma AddColumn(
    rows: seq<seq<nat>>, size: nat, live: set<nat>, unset: set<nat>, mainCols: seq<nat>, col: nat, r: nat)
    requires forall q :: q in unset ==> q < |rows|
    requires Columns(rows, size, live, unset, mainCols, {col})
    ensures col !in mainCols ==> Columns(rows, size, live, unset - {r}, mainCols + [col], {col})
    ensures Columns(rows, size, live, unset - {r}, mainCols, {col})
  {
    if col !in mainCols {
      DistinctAppend(mainCols, col);
    }
  }

  /** A later unset row of the current column becomes a gap row. */
  lemma AddGap<H>(
    rows: seq<seq<nat>>, dense: seq<H>, size: nat, live: set<nat>, nodes: seq<WeightNode>, nodes': seq<WeightNode>,
    unset: set<nat>, t: Triangle, col: nat, r: nat)
    requires Peeled(rows, dense, size, live, nodes, unset, t, {col})
    requires t.mainCols != [] && t.mainCols[|t.mainCols| - 1] == col
    requires r in unset && col in rows[r]
    requires Counted(rows, size, live, nodes', unset - {r})
    requires dense[r] != dense[t.mainRows[|t.mainRows| - 1]]
    ensures Peeled(rows, dense, size, live, nodes', unset - {r},
                   Triangle(t.mainRows, t.mainCols, t.gapRows + [(r, t.mainRows[|t.mainRows| - 1])]), {col})
  {
    hide GapRows, SplitsRows, Counted, Columns;
    var k := |t.mainCols| - 1;
    var g := (r, t.mainRows[k]);
    forall j | 0 <= j < k
      ensures t.mainCols[j] !in rows[r]
    {
      ColumnsDistinct(rows, size, live, unset, t.mainCols, {col}, j, k);
      UnsetAvoids(rows, dense, size, live, nodes, unset, t, col, r, t.mainCols[j]);
    }
    GapRowsAppend(rows, dense, t, g, k);
    SplitGap(t, |rows|, unset, g);
    AddColumn(rows, size, live, unset, t.mainCols, col, r);
  }

  lemma ColumnsDistinct(
    rows: seq<seq<nat>>, size: nat, live: set<nat>, unset: set<nat>, mainCols: seq<nat>, current: set<nat>, j: nat,
      k: nat)
    requires forall q :: q in unset ==> q < |rows|
    requires Columns(rows, size, live, unset, mainCols, current) && j < k < |mainCols|
    ensures mainCols[j] != mainCols[k]
  {
  }

  lemma GapRowsAppend<H>(rows: seq<seq<nat>>, dense: seq<H>, t: Triangle, g: (nat, nat), k: nat)
    requires |dense| == |rows| && GapRows(rows, dense, t.mainRows, t.mainCols, t.gapRows)
    requires GapRow(rows, dense, t.mainRows, t.mainCols, g, k)
    ensures GapRows(rows, dense, t.mainRows, t.mainCols, t.gapRows + [g])
  {
  }

  /** When every row of the current column is set, the next column can be taken. */
  lemma CloseColumn<H>(
    rows: seq<seq<nat>>, dense: seq<H>, size: nat, live: set<nat>, nodes: seq<WeightNode>, unset: set<nat>,
    t: Triangle, col: nat)
    requires Peeled(rows, dense, size, live, nodes, unset, t, {col}) && col in t.mainCols
    requires forall r :: r in unset ==> col !in rows[r]
    ensures Peeled(rows, dense, size, live, nodes, unset, t, {})
  {
    assert col in Entries(t.mainCols);
  }

  /** A live column of non-zero weight has an unset row, and enough columns are live. */
  lemma EnoughLive<H>(
    rows: seq<seq<nat>>, dense: seq<H>, size: nat, live: set<nat>, nodes: seq<WeightNode>, unset: set<nat>,
    t: Triangle, weight: nat, current: set<nat>, r: nat)
    requires Peeled(rows, dense, size, live, nodes, unset, t, current) && GoodRows(rows, weight, size)
    requires weight >= 3 || size >= |rows| + 2
    requires r in unset && |current| <= 1
    ensures |live + current| >= 3
  {
    hide Counted, GapRows, SplitsRows, Triangular;
    if weight >= 3 {
      DistinctSize(rows[r]);
      SubsetSize(Entries(rows[r]), live + current);
    } else {
      hide Columns, GoodRows;
      SameLength(rows, t);
      FewMainRows(t, |rows|, unset, r);
      SpareColumns(rows, size, live, unset, t.mainCols, current);
    }
  }

  lemma SameLength(rows: seq<seq<nat>>, t: Triangle)
    requires Triangular(rows, t.mainRows, t.mainCols)
    ensures |t.mainRows| == |t.mainCols|
  {}

  /** There are fewer main rows than rows while a row is unset. */
  lemma FewMainRows(t: Triangle, n: nat, unset: set<nat>, r: nat)
    requires SplitsRows(t.mainRows, t.gapRows, Below(n) - unset) && r in unset && r < n
    ensures |t.mainRows| < n
  {
    hide SplitsRows;
    MainRowsDone(t, n, unset, r);
    DistinctSize(t.mainRows);
    SubsetSize(Entries(t.mainRows), Below(n) - {r});
  }

  /** The columns that are neither main columns nor live are few. */
  lemma SpareColumns(
    rows: seq<seq<nat>>, size: nat, live: set<nat>, unset: set<nat>, mainCols: seq<nat>, current: set<nat>)
    requires (forall r :: r in unset ==> r < |rows|) && Columns(rows, size, live, unset, mainCols, current)
    ensures size <= |mainCols| + |live + current|
  {
    hide Sees;
    DistinctSize(mainCols);
    assert Below(size) == Entries(mainCols) + (live + current);
    UnionSize(Entries(mainCols), live + current);
  }

  lemma MainRowsDone(t: Triangle, n: nat, unset: set<nat>, r: nat)
    requires SplitsRows(t.mainRows, t.gapRows, Below(n) - unset) && r in unset
    ensures Distinct(t.mainRows) && Entries(t.mainRows) <= Below(n) - {r}
    ensures forall x :: x in t.mainRows ==> x < n && x != r
  {
    var a := t.mainRows + Firsts(t.gapRows);
    assert forall i :: 0 <= i < |t.mainRows| ==> a[i] == t.mainRows[i];
    forall x | x in t.mainRows
      ensures x in Below(n) - {r} && x < n && x != r
    {
      assert x in Entries(a);
    }
  }

  lemma UnionSize(a: set<nat>, b: set<nat>)
    ensures |a + b| <= |a| + |b|
  {
  }

  /** Before a row is set: its live columns are those of non-zero weight, and at least two columns are live. */
  lemma RowWeights<H>(
    rows: seq<seq<nat>>, dense: seq<H>, size: nat, live: set<nat>, nodes: seq<WeightNode>, unset: set<nat>,
    t: Triangle, weight: nat, col: nat, r: nat)
    requires Peeled(rows, dense, size, live, nodes, unset, t, {col}) && GoodRows(rows, weight, size)
    requires weight >= 3 || size >= |rows| + 2
    requires r in unset
    ensures r < |rows| && |live| >= 2 && Distinct(rows[r])
    ensures forall c :: c in rows[r] ==> c < |nodes| && (c in live <==> nodes[c].weight > 0)
  {
    EnoughLive(rows, dense, size, live, nodes, unset, t, weight, {col}, r);
    UnionSize(live, {col});
    forall c | c in rows[r]
      ensures c < |nodes| && (c in live <==> nodes[c].weight > 0)
    {
      UnsetStep(rows, unset, r, c);
    }
  }

  /** Setting a row of the current column keeps the invariant, whichever way the row is recorded. */
  lemma SetRow<H>(
    rows: seq<seq<nat>>, dense: seq<H>, size: nat, live: set<nat>, nodes: seq<WeightNode>, nodes': seq<WeightNode>,
    unset: set<nat>, t: Triangle, col: nat, r: nat)
    requires Peeled(rows, dense, size, live, nodes, unset, t, {col})
    requires r in unset && r < |rows| && col in rows[r] && Lowered(nodes, nodes', live, rows[r])
    ensures |dense| == |rows| && |t.mainRows| == |t.mainCols|
    ensures forall q :: q in t.mainRows ==> q < |rows| && q != r
    ensures col !in t.mainCols ==>
      Peeled(rows, dense, size, live, nodes', unset - {r}, Triangle(t.mainRows + [r], t.mainCols + [col], t.gapRows),
        {col})
    ensures (t.mainCols != [] && t.mainCols[|t.mainCols| - 1] == col &&
        dense[r] != dense[t.mainRows[|t.mainRows| - 1]]) ==>
      Peeled(rows, dense, size, live, nodes', unset - {r},
             Triangle(t.mainRows, t.mainCols, t.gapRows + [(r, t.mainRows[|t.mainRows| - 1])]), {col})
  {
    hide Triangular, GapRows, SplitsRows, Counted, Columns;
    CountRow(rows, size, live, nodes, nodes', unset, r);
    TriangularSizes(rows, t);
    MainRowsDone(t, |rows|, unset, r);
    if t.mainRows != [] {
      assert t.mainRows[|t.mainRows| - 1] in t.mainRows;
    }
    if col !in t.mainCols {
      AddMain(rows, dense, size, live, nodes, nodes', unset, t, col, r);
    } else if t.mainCols[|t.mainCols| - 1] == col && dense[r] != dense[t.mainRows[|t.mainRows| - 1]] {
      AddGap(rows, dense, size, live, nodes, nodes', unset, t, col, r);
    }
  }

  /** What a finished triangulation promises: a triangular block, paired gap rows, and every row exactly once. */
  ghost predicate Triangulated<H>(rows: seq<seq<nat>>, dense: seq<H>, size: nat, t: Triangle) {
    && |dense| == |rows|
    && Triangular(rows, t.mainRows, t.mainCols)
    && GapRows(rows, dense, t.mainRows, t.mainCols, t.gapRows)
    && SplitsRows(t.mainRows, t.gapRows, Below(|rows|))
    && Distinct(t.mainCols) && Entries(t.mainCols) <= Below(size)
  }

  /** When no live column has weight left, every row is set and the triangulation is finished. */
  lemma PeelingDone<H>(
    rows: seq<seq<nat>>, dense: seq<H>, size: nat, live: set<nat>, nodes: seq<WeightNode>, unset: set<nat>,
    t: Triangle, weight: nat)
    requires Peeled(rows, dense, size, live, nodes, unset, t, {}) && GoodRows(rows, weight, size) && weight >= 1
    requires forall c :: c in live ==> c < |nodes| && nodes[c].weight == 0
    ensures unset == {} && Triangulated(rows, dense, size, t)
    ensures live == Below(size) - Entries(t.mainCols)
  {
    hide Triangular, GapRows, SplitsRows, Counted, Columns, Below, GoodRows;
    if r :| r in unset {
      AllSet(rows, size, live, nodes, unset, t.mainCols, weight, r);
    }
    assert Below(|rows|) - unset == Below(|rows|);
    ColumnsLeft(rows, size, live, unset, t.mainCols);
  }

  lemma AllSet(
    rows: seq<seq<nat>>, size: nat, live: set<nat>, nodes: seq<WeightNode>, unset: set<nat>, mainCols: seq<nat>,
    weight: nat, r: nat)
    requires forall q :: q in unset ==> q < |rows|
    requires Counted(rows, size, live, nodes, unset) && Columns(rows, size, live, unset, mainCols, {})
    requires GoodRows(rows, weight, size) && weight >= 1
    requires forall c :: c in live ==> c < |nodes| && nodes[c].weight == 0
    ensures r !in unset
  {
    if r in unset {
      var c := rows[r][0];
      assert c in rows[r];
      UnsetStep(rows, unset, r, c);
      assert false;
    }
  }

  lemma ColumnsLeft(rows: seq<seq<nat>>, size: nat, live: set<nat>, unset: set<nat>, mainCols: seq<nat>)
    requires forall r :: r in unset ==> r < |rows|
    requires Columns(rows, size, live, unset, mainCols, {})
    ensures Distinct(mainCols) && Entries(mainCols) <= Below(size)
    ensures live == Below(size) - Entries(mainCols)
  {
  }

  /** The column of least weight, once popped, becomes the current one and has an unset row. */
  lemma ChooseColumn<H>(
    rows: seq<seq<nat>>, dense: seq<H>, size: nat, live: set<nat>, nodes: seq<WeightNode>, unset: set<nat>,
    t: Triangle, weight: nat, col: nat)
    requires Peeled(rows, dense, size, live, nodes, unset, t, {}) && GoodRows(rows, weight, size)
    requires weight >= 3 || size >= |rows| + 2
    requires col in live && col < |nodes| && nodes[col].weight > 0
    ensures |live| >= 3 && col < size
    ensures exists q :: q in unset && q < |rows| && col in rows[q]
  {
    assert UnsetIn(rows, unset, col) != {};
    var r :| r in UnsetIn(rows, unset, col);
    EnoughLive(rows, dense, size, live, nodes, unset, t, weight, {}, r);
    assert live + {} == live;
    assert col in Below(size);
  }

  /** At the start every row is unset, so the full weights are the right counts. */
  lemma FullWeights(rows: seq<seq<nat>>, size: nat, nodes: seq<WeightNode>)
    requires size <= |nodes|
    requires forall c :: 0 <= c < size ==> nodes[c].weight == |ColumnOf(rows, c, |rows|)|
    requires forall r :: r in Below(|rows|) ==> r < |rows|
    ensures Counted(rows, size, Below(size), nodes, Below(|rows|))
  {
    forall c | 0 <= c < size
      ensures nodes[c].weight == |UnsetIn(rows, Below(|rows|), c)|
    {
      var col := ColumnOf(rows, c, |rows|);
      ColumnMembers(rows, c, |rows|);
      DistinctSize(col);
      assert Entries(col) == UnsetIn(rows, Below(|rows|), c);
    }
  }
}
