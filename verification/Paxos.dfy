/** The paxos object: its matrix, the transpose of the matrix, and the peeling. */
module PaxosCore {
  import opened Algebra
  import opened WeightSets
  import opened SparseMatrix
  import opened Peeling
  import opened LeastWeight

  datatype DenseType = Binary | GF128

  datatype PaxosParam = PaxosParam(sparseSize: nat, denseSize: nat, weight: nat, g: nat, dt: DenseType) {
    function Size(): nat { sparseSize + denseSize }
  }

  /** How the triangulation ends: normally, or with one of the two throws of the source. */
  datatype Outcome = Done | NoColumn | DuplicateKeys

  ghost function UnsetRows(rowSet: seq<bool>): set<nat> {
    set r: nat | r < |rowSet| && !rowSet[r]
  }

  ghost predicate HasDuplicates<H>(dense: seq<H>) {
    exists a, b :: 0 <= a < b < |dense| && dense[a] == dense[b]
  }

  lemma NothingSet(rowSet: seq<bool>)
    requires forall r :: 0 <= r < |rowSet| ==> !rowSet[r]
    ensures UnsetRows(rowSet) == Below(|rowSet|)
  {
  }

  lemma DuplicatePair<H>(dense: seq<H>, a: nat, b: nat)
    requires a < |dense| && b < |dense| && a != b && dense[a] == dense[b]
    ensures HasDuplicates(dense)
  {
    if b < a {
      assert dense[b] == dense[a];
    }
  }

  lemma RowsInRange(rows: seq<seq<nat>>, weight: nat, size: nat)
    requires GoodRows(rows, weight, size)
    ensures forall r :: 0 <= r < |rows| ==> InRange(rows[r], size)
  {}

  class Paxos<H(==)> {
    const numItems: nat
    const param: PaxosParam
    var rows: seq<seq<nat>>
    var dense: seq<H>
    var colBacking: array<nat>
    var cols: seq<Span>
    const weightSets: WeightData

    constructor (numItems: nat, param: PaxosParam)
      ensures this.numItems == numItems && this.param == param
      ensures weightSets.Valid() && weightSets.live == {} && fresh(weightSets) && fresh(weightSets.nodes)
      ensures fresh(colBacking)
    {
      this.numItems, this.param := numItems, param;
      rows, dense, cols := [], [], [];
      colBacking := new nat[0];
      weightSets := new WeightData();
    }

    /** The matrix has the promised shape, and enough columns for a peeling never to exhaust them. */
    ghost predicate HasMatrix()
      reads this
    {
      && |rows| == |dense| == numItems && 1 <= param.weight
      && GoodRows(rows, param.weight, param.sparseSize)
      && (param.weight >= 3 || param.sparseSize >= numItems + 2)
    }

    /** The columns are the exact transpose of the rows. */
    ghost predicate HasColumns()
      reads this, colBacking
    {
      |cols| == param.sparseSize && forall c :: 0 <= c < |cols| ==>
        HoldsColumn(colBacking[..], cols[c], ColumnOf(rows, c, |rows|))
    }

    /** Counts how many rows use each column. */
    method CountWeights() returns (colWeights: seq<nat>)
      requires HasMatrix()
      ensures |colWeights| == param.sparseSize && CountsColumns(colWeights, rows)
      ensures Prefix(colWeights, |colWeights|) == numItems * param.weight
    {
      hide CountsPart, ColumnOf;
      colWeights := seq(param.sparseSize, _ => 0);
      PrefixZero(param.sparseSize);
      CountNone(colWeights, rows);
      var i := 0;
      while i < |rows|
        invariant i <= |rows| && |colWeights| == param.sparseSize && CountsPart(colWeights, rows, i, 0)
        invariant Prefix(colWeights, |colWeights|) == i * param.weight
      {
        var j := 0;
        while j < |rows[i]|
          invariant j <= |rows[i]| && |colWeights| == param.sparseSize && CountsPart(colWeights, rows, i, j)
          invariant Prefix(colWeights, |colWeights|) == i * param.weight + j
        {
          var c := rows[i][j];
          CountStep(colWeights, rows, i, j);
          PrefixUpdate(colWeights, c, |colWeights|);
          colWeights := colWeights[c := colWeights[c] + 1];
          j := j + 1;
        }
        CountRowDone(colWeights, rows, i);
        assert i * param.weight + param.weight == (i + 1) * param.weight;
        i := i + 1;
      }
      CountDone(colWeights, rows);
    }

    /** Lays the columns out in the backing array; false is the source's throw. */
    method RebuildColumns(colWeights: seq<nat>, totalWeight: nat) returns (ok: bool)
      requires HasMatrix() && |colWeights| == param.sparseSize && CountsColumns(colWeights, rows)
      modifies this`cols, colBacking
      ensures ok <==> colBacking.Length == totalWeight == Prefix(colWeights, |colWeights|)
      ensures ok ==> HasColumns() && TilesBacking(cols, colWeights)
    {
      hide CountsColumns, GoodRows;
      if colBacking.Length != totalWeight {
        return false;
      }
      var colIter := 0;
      cols := [];
      for i := 0 to |colWeights|
        invariant |cols| == i && colIter == Prefix(colWeights, i)
        invariant forall c :: 0 <= c < i ==> cols[c] == Span(Prefix(colWeights, c), 0)
      {
        cols := cols + [Span(colIter, 0)];
        colIter := colIter + colWeights[i];
      }
      if colIter != colBacking.Length {
        return false;
      }
      FillRows(colWeights);
      return true;
    }

    /** The second pass: appends every row number to the columns of its row. */
    method FillRows(ghost colWeights: seq<nat>)
      requires HasMatrix() && |colWeights| == param.sparseSize && CountsColumns(colWeights, rows)
      requires Prefix(colWeights, |colWeights|) == colBacking.Length && |cols| == |colWeights|
      requires forall c :: 0 <= c < |cols| ==> cols[c] == Span(Prefix(colWeights, c), 0)
      modifies this`cols, colBacking
      ensures HasColumns() && TilesBacking(cols, colWeights)
    {
      hide Filled, CountsColumns, GoodRows, HoldsColumn, TilesBacking, ColumnOf, Prefix;
      FillNone(colBacking[..], cols, colWeights, rows);
      var i := 0;
      while i < |rows|
        invariant i <= |rows| && Filled(colBacking[..], cols, colWeights, rows, i, 0)
      {
        if param.weight == 3 {
          FillThree(colWeights, i);
        } else {
          FillRow(colWeights, i);
        }
        i := i + 1;
      }
      FillAll(colBacking[..], cols, colWeights, rows);
    }

    /** The general case of one row: its number is appended to each of its columns in turn. */
    method FillRow(ghost colWeights: seq<nat>, i: nat)
      requires HasMatrix() && |colWeights| == param.sparseSize && CountsColumns(colWeights, rows)
      requires Prefix(colWeights, |colWeights|) == colBacking.Length
      requires i < |rows| && Filled(colBacking[..], cols, colWeights, rows, i, 0)
      modifies this`cols, colBacking
      ensures Filled(colBacking[..], cols, colWeights, rows, i + 1, 0)
    {
      hide Filled;
      var j := 0;
      while j < |rows[i]|
        invariant j <= |rows[i]| && Filled(colBacking[..], cols, colWeights, rows, i, j)
      {
        var c := rows[i][j];
        ghost var before, spans := colBacking[..], cols;
        SpanRoom(before, spans, colWeights, rows, param.weight, i, j);
        FillStep(before, spans, colWeights, rows, param.weight, i, j);
        var s := cols[c].len;
        colBacking[cols[c].start + s] := i;
        cols := cols[c := Span(cols[c].start, s + 1)];
        assert colBacking[..] == before[spans[c].start + spans[c].len := i];
        j := j + 1;
      }
      FillRowDone(colBacking[..], cols, colWeights, rows, i);
    }

    /** The three-column case: all three ends are read before any is moved. */
    method FillThree(ghost colWeights: seq<nat>, i: nat)
      requires HasMatrix() && |colWeights| == param.sparseSize && CountsColumns(colWeights, rows)
      requires Prefix(colWeights, |colWeights|) == colBacking.Length && param.weight == 3
      requires i < |rows| && Filled(colBacking[..], cols, colWeights, rows, i, 0)
      modifies this`cols, colBacking
      ensures Filled(colBacking[..], cols, colWeights, rows, i + 1, 0)
    {
      hide Filled;
      var c0, c1, c2 := rows[i][0], rows[i][1], rows[i][2];
      assert c0 != c1 && c0 != c2 && c1 != c2;
      ghost var b0, s0 := colBacking[..], cols;
      SpanRoom(b0, s0, colWeights, rows, 3, i, 0);
      FillStep(b0, s0, colWeights, rows, 3, i, 0);
      ghost var b1, s1 := b0[s0[c0].start + s0[c0].len := i], s0[c0 := Span(s0[c0].start, s0[c0].len + 1)];
      SpanRoom(b1, s1, colWeights, rows, 3, i, 1);
      FillStep(b1, s1, colWeights, rows, 3, i, 1);
      ghost var b2, s2 := b1[s1[c1].start + s1[c1].len := i], s1[c1 := Span(s1[c1].start, s1[c1].len + 1)];
      SpanRoom(b2, s2, colWeights, rows, 3, i, 2);
      FillStep(b2, s2, colWeights, rows, 3, i, 2);
      var d0, d1, d2 := cols[c0], cols[c1], cols[c2];
      cols := cols[c0 := Span(d0.start, d0.len + 1)][c1 := Span(d1.start, d1.len + 1)][c2 := Span(d2.start,
        d2.len + 1)];
      colBacking[d0.start + d0.len] := i;
      colBacking[d1.start + d1.len] := i;
      colBacking[d2.start + d2.len] := i;
      assert colBacking[..] == b2[s2[c2].start + s2[c2].len := i];
      FillRowDone(colBacking[..], cols, colWeights, rows, i);
    }

    /** No column occurs more often than the weight structure has room for. */
    ghost predicate WeightsFit()
      reads this
    {
      forall c :: 0 <= c < param.sparseSize ==> |ColumnOf(rows, c, |rows|)| < INITIAL_SETS
    }

    /** The weight structure holds every column with its full weight. */
    ghost predicate Ready()
      reads this, weightSets, weightSets.nodes
    {
      && weightSets.Valid()
      && weightSets.live == Below(param.sparseSize) && param.sparseSize <= weightSets.nodes.Length
      && (forall c :: 0 <= c < param.sparseSize ==> weightSets.nodes[c].weight == |ColumnOf(rows, c, |rows|)|)
      && (param.sparseSize == 0 ==> |weightSets.weightSets| > 1)
    }

    /** Takes over the rows and dense hashes; false is the throw on a wrong shape. */
    method SetInput(rows: seq<seq<nat>>, width: nat, dense: seq<H>) returns (ok: bool)
      requires GoodRows(rows, width, param.sparseSize)
      requires 1 <= param.weight && (param.weight >= 3 || param.sparseSize >= numItems + 2)
      requires forall c :: 0 <= c < param.sparseSize ==> |ColumnOf(rows, c, |rows|)| < INITIAL_SETS
      modifies this, weightSets, weightSets.nodes
      ensures ok <==> |rows| == numItems && |dense| == numItems && width == param.weight
      ensures ok ==> this.rows == rows && this.dense == dense
      ensures ok ==> HasMatrix() && WeightsFit() && HasColumns() && Ready()
      ensures weightSets.nodes == old(weightSets.nodes) || fresh(weightSets.nodes)
      ensures colBacking == old(colBacking) || fresh(colBacking)
    {
      hide ColumnOf, CountsColumns, TilesBacking, GoodRows, HoldsColumn, Linked, Trimmed, AllBucketed, Below, Prefix;
      if |rows| != numItems || |dense| != numItems {
        return false;
      }
      if width != param.weight {
        return false;
      }
      this.rows, this.dense := rows, dense;
      colBacking := new nat[numItems * param.weight];
      var colWeights := CountWeights();
      ok := RebuildColumns(colWeights, param.weight * numItems);
      CountsBounded(colWeights, rows);
      weightSets.Init(colWeights);
    }

    /** Lowers the weight of every column of a newly set row that is still in the structure. */
    method DecrementRow(row: seq<nat>)
      requires weightSets.Valid() && Distinct(row) && |weightSets.live| >= 2
      requires forall c :: c in row ==> c < weightSets.nodes.Length
      requires forall c :: c in row ==> (c in weightSets.live <==> weightSets.nodes[c].weight > 0)
      modifies weightSets, weightSets.nodes
      ensures weightSets.Valid() && weightSets.nodes == old(weightSets.nodes) && weightSets.live == old(weightSets.live)
      ensures Lowered(old(weightSets.nodes[..]), weightSets.nodes[..], weightSets.live, row)
    {
      hide Linked, Trimmed;
      for j := 0 to |row|
        invariant weightSets.Valid() && weightSets.nodes == old(weightSets.nodes)
        invariant weightSets.live == old(weightSets.live)
        invariant Lowered(old(weightSets.nodes[..]), weightSets.nodes[..], weightSets.live, row[..j])
      {
        var c := row[j];
        assert row[..j + 1] == row[..j] + [c];
        assert c !in row[..j] && c in row;
        if weightSets.nodes[c].weight != 0 {
          assert weightSets.live != {c};
          weightSets.DecrementWeight(c);
        }
      }
      assert row[..|row|] == row;
    }

    /** The peeling invariant on the current weight structure. */
    ghost predicate Peeling(unset: set<nat>, t: Triangle, current: set<nat>)
      reads this, weightSets, weightSets.nodes
    {
      Peeled(rows, dense, param.sparseSize, weightSets.live, weightSets.nodes[..], unset, t, current)
    }

    /** Sets every unset row of the current column: the first becomes a main row, the others gap rows. */
    method PeelColumn(col: nat, rowSet: array<bool>, t0: Triangle) returns (r: Outcome, t: Triangle)
      requires HasMatrix() && HasColumns() && weightSets.Valid() && rowSet.Length == numItems
      requires Peeling(UnsetRows(rowSet[..]), t0, {col}) && col !in t0.mainCols && col < param.sparseSize
      requires exists q :: q in UnsetRows(rowSet[..]) && q < |rows| && col in rows[q]
      modifies weightSets, weightSets.nodes, rowSet
      ensures weightSets.Valid() && weightSets.nodes == old(weightSets.nodes) && weightSets.live == old(weightSets.live)
      ensures r == Done || (r == DuplicateKeys && HasDuplicates(dense))
      ensures r == DuplicateKeys ==> |UnsetIn(rows, UnsetRows(old(rowSet[..])), col)| >= 2
      ensures r == Done ==> Peeling(UnsetRows(rowSet[..]), t, {}) && t.mainCols == t0.mainCols + [col]
      ensures r == Done ==>
        t == Extended(t0, col, UnsetOf(ColumnOf(rows, col, |rows|), UnsetRows(old(rowSet[..]))))
    {
      hide Linked, Trimmed, Peeled, GoodRows, Progress, Extended, ColumnOf, UnsetOf, Lowered;
      t := t0;
      var first := true;
      var span := cols[col];
      ColumnMembers(rows, col, |rows|);
      ghost var list, unset0 := ColumnOf(rows, col, |rows|), UnsetRows(rowSet[..]);
      NoProgress(t0, col, list, unset0);
      for k := 0 to span.len
        invariant weightSets.Valid() && weightSets.nodes == old(weightSets.nodes)
        invariant weightSets.live == old(weightSets.live)
        invariant Peeling(UnsetRows(rowSet[..]), t, {col})
        invariant Progress(t0, t, col, list, unset0, UnsetRows(rowSet[..]), k) && (first <==> col !in t.mainCols)
      {
        var rowIdx := colBacking[span.start + k];
        assert rowIdx == list[k] && list[k] in list;
        ghost var unset, nodes := UnsetRows(rowSet[..]), weightSets.nodes[..];
        ProgressShape(t0, t, col, list, unset0, unset, k);
        if !rowSet[rowIdx] {
          rowSet[rowIdx] := true;
          RowWeights(rows, dense, param.sparseSize, weightSets.live, nodes, unset, t, param.weight, col, rowIdx);
          DecrementRow(rows[rowIdx]);
          SetRow(rows, dense, param.sparseSize, weightSets.live, nodes, weightSets.nodes[..], unset, t, col, rowIdx);
          ProgressSet(t0, t, col, list, unset0, unset, k);
          assert UnsetRows(rowSet[..]) == unset - {rowIdx};
          if first {
            t := Triangle(t.mainRows + [rowIdx], t.mainCols + [col], t.gapRows);
            first := false;
          } else {
            assert t.mainRows[|t.mainRows| - 1] in t.mainRows;
            if dense[t.mainRows[|t.mainRows| - 1]] == dense[rowIdx] {
              DuplicatePair(dense, t.mainRows[|t.mainRows| - 1], rowIdx);
              TwoRows(rows, unset0, col, t.mainRows[|t.mainRows| - 1], rowIdx);
              return DuplicateKeys, t;
            }
            t := Triangle(t.mainRows, t.mainCols, t.gapRows + [(rowIdx, t.mainRows[|t.mainRows| - 1])]);
          }
        } else {
          ProgressSkip(t0, t, col, list, unset0, unset, k);
        }
      }
      ProgressShape(t0, t, col, list, unset0, UnsetRows(rowSet[..]), |list|);
      SomeFound(t0, t, col, list, unset0);
      CloseColumn(rows, dense, param.sparseSize, weightSets.live, weightSets.nodes[..], UnsetRows(rowSet[..]), t, col);
      return Done, t;
    }

    /** Weights of all columns, read off the columns. */
    method ColumnSizes() returns (colWeights: seq<nat>)
      requires HasMatrix() && HasColumns() && WeightsFit()
      ensures |colWeights| == param.sparseSize
      ensures forall c :: 0 <= c < |colWeights| ==>
        colWeights[c] == |ColumnOf(rows, c, |rows|)| && colWeights[c] < INITIAL_SETS
    {
      hide ColumnOf;
      colWeights := [];
      for i := 0 to param.sparseSize
        invariant |colWeights| == i
        invariant forall c :: 0 <= c < i ==> colWeights[c] == |ColumnOf(rows, c, |rows|)|
      {
        assert HoldsColumn(colBacking[..], cols[i], ColumnOf(rows, i, |rows|));
        colWeights := colWeights + [cols[i].len];
      }
    }

    lemma StartPeeling()
      requires HasMatrix() && Ready()
      ensures Peeling(Below(numItems), Triangle([], [], []), {})
      ensures param.sparseSize > 0 <==> weightSets.live != {}
    {
      hide Linked, Trimmed, Peeled, Counted;
      assert param.sparseSize > 0 ==> 0 in Below(param.sparseSize);
      FullWeights(rows, param.sparseSize, weightSets.nodes[..]);
      NothingPeeled(rows, dense, param.sparseSize, weightSets.nodes[..]);
    }

    /** One round of the peeling: takes a column of least non-zero weight and peels it. */
    method PeelNext(rowSet: array<bool>, t0: Triangle) returns (r: Outcome, t: Triangle)
      requires HasMatrix() && HasColumns() && weightSets.Valid() && rowSet.Length == numItems
      requires Peeling(UnsetRows(rowSet[..]), t0, {})
      requires |weightSets.weightSets| > 1
      modifies weightSets, weightSets.nodes, rowSet
      ensures r == NoColumn <==> old(weightSets.live) == {}
      ensures r == DuplicateKeys ==> HasDuplicates(dense) && !Peelable(rows)
      ensures weightSets.nodes == old(weightSets.nodes)
      ensures r == Done ==> weightSets.Valid()
      ensures r == Done ==> Peeling(UnsetRows(rowSet[..]), t, {})
      ensures r == Done ==> t0.mainCols < t.mainCols && |t.mainCols| == |t0.mainCols| + 1
      ensures r == Done ==> Least(rows, param.sparseSize, Avoiding(rows, t0.mainCols), t.mainCols[|t0.mainCols|])
      ensures r == Done ==>
        var col := t.mainCols[|t0.mainCols|];
        t == Extended(t0, col, UnsetOf(ColumnOf(rows, col, |rows|), Avoiding(rows, t0.mainCols)))
      ensures r == Done ==> weightSets.live < old(weightSets.live) && weightSets.live != {}
    {
      hide Linked, Trimmed, Trim, Without, Peeled, GoodRows, HoldsColumn, Below, UnsetRows;
      ghost var nodes, live, unset := weightSets.nodes[..], weightSets.live, UnsetRows(rowSet[..]);
      LiveInRange(nodes, weightSets.weightSets, weightSets.lists, live);
      if live != {} {
        SizeTellsWeight(nodes, weightSets.weightSets, weightSets.lists, live);
      }
      var min := weightSets.GetMinWeightNode();
      if min.None? {
        return NoColumn, t0;
      }
      var col := min.value;
      ChooseColumn(rows, dense, param.sparseSize, live, nodes, unset, t0, param.weight, col);
      LeastChosen(rows, dense, param.sparseSize, live, nodes, unset, t0, col);
      weightSets.PopNode(col);
      weightSets.ClearWeight(col);
      OpenColumn(rows, dense, param.sparseSize, live, nodes, weightSets.nodes[..], unset, t0, col);
      r, t := PeelColumn(col, rowSet, t0);
      if r == DuplicateKeys {
        RowsInRange(rows, param.weight, param.sparseSize);
        LeastOfTwo(rows, param.sparseSize, unset, col);
      }
    }

    lemma FinishPeeling(unset: set<nat>, t: Triangle)
      requires HasMatrix() && weightSets.Valid() && Peeling(unset, t, {}) && |weightSets.weightSets| <= 1
      ensures Triangulated(rows, dense, param.sparseSize, t)
      ensures weightSets.live == Below(param.sparseSize) - Entries(t.mainCols)
    {
      hide Linked, Trimmed, Peeled, GoodRows, Below;
      LiveInRange(weightSets.nodes[..], weightSets.weightSets, weightSets.lists, weightSets.live);
      if weightSets.live != {} {
        SizeTellsWeight(weightSets.nodes[..], weightSets.weightSets, weightSets.lists, weightSets.live);
      }
      PeelingDone(rows, dense, param.sparseSize, weightSets.live, weightSets.nodes[..], unset, t, param.weight);
    }

    /** Peels the matrix column by column, always a column of least non-zero weight. */
    method Triangulate() returns (r: Outcome, t: Triangle)
      requires HasMatrix() && HasColumns() && WeightsFit()
      requires Ready() || (weightSets.Valid() && |weightSets.weightSets| <= 1)
      modifies weightSets, weightSets.nodes
      ensures r == NoColumn <==> param.sparseSize == 0
      ensures r == DuplicateKeys ==> HasDuplicates(dense) && !Peelable(rows)
      ensures weightSets.nodes == old(weightSets.nodes) || fresh(weightSets.nodes)
      ensures r == Done ==> weightSets.live != {}
      ensures r == Done ==> Triangulated(rows, dense, param.sparseSize, t)
      ensures r == Done ==> LeastFirst(rows, param.sparseSize, t.mainCols) && t == TriangleOf(rows, t.mainCols)
      ensures r == Done ==> (t.gapRows == [] <==> Peelable(rows))
      ensures r == Done ==> weightSets.Valid() && |weightSets.weightSets| <= 1
      ensures r == Done ==> weightSets.live == Below(param.sparseSize) - Entries(t.mainCols)
    {
      hide Linked, Trimmed, Peeled, GoodRows, HoldsColumn, Below, UnsetRows, Triangulated, Least, Avoiding, Peelable;
      if |weightSets.weightSets| <= 1 {
        var colWeights := ColumnSizes();
        weightSets.Init(colWeights);
      }
      var rowSet := new bool[numItems](_ => false);
      t := Triangle([], [], []);
      StartPeeling();
      NothingSet(rowSet[..]);
      while |weightSets.weightSets| > 1
        invariant weightSets.Valid() && (weightSets.nodes == old(weightSets.nodes) || fresh(weightSets.nodes))
        invariant Peeling(UnsetRows(rowSet[..]), t, {}) && LeastFirst(rows, param.sparseSize, t.mainCols)
        invariant t == TriangleOf(rows, t.mainCols)
        invariant param.sparseSize > 0 <==> weightSets.live != {}
        invariant param.sparseSize == 0 ==> |weightSets.weightSets| > 1
        decreases weightSets.live
      {
        var round, next := PeelNext(rowSet, t);
        if round != Done {
          return round, next;
        }
        LeastAppend(rows, param.sparseSize, t.mainCols, next.mainCols[|t.mainCols|]);
        TriangleNext(rows, t.mainCols, next.mainCols[|t.mainCols|]);
        assert t.mainCols + [next.mainCols[|t.mainCols|]] == next.mainCols;
        t := next;
      }
      FinishPeeling(UnsetRows(rowSet[..]), t);
      RowsInRange(rows, param.weight, param.sparseSize);
      PeelableExactly(rows, dense, param.sparseSize, t);
      return Done, t;
    }
  }
}
