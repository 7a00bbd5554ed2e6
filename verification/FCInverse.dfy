/** The gap rows are cleared on the main columns by adding main rows: the rows of F C^-1. */
module FCInverse {
  import opened Algebra
  import opened WeightSets
  import opened SparseMatrix
  import opened Peeling

  /** The columns on which row r, with the listed rows added, is non-zero. */
  ghost function Residual(rows: seq<seq<nat>>, r: nat, added: seq<nat>): set<nat>
    requires r < |rows| && InRange(added, |rows|)
  {
    if added == [] then Entries(rows[r])
    else SymDiff(Residual(rows, r, added[..|added| - 1]), Entries(rows[added[|added| - 1]]))
  }

  lemma ResidualAppend(rows: seq<seq<nat>>, r: nat, added: seq<nat>, x: nat)
    requires r < |rows| && InRange(added, |rows|) && x < |rows|
    ensures Residual(rows, r, added + [x]) == SymDiff(Residual(rows, r, added), Entries(rows[x]))
  {
    assert (added + [x])[..|added|] == added;
  }

  /** Maps each main column to its index in C, every other column to -1. */
  ghost predicate IsMapping(colMapping: seq<int>, mainCols: seq<nat>) {
    && InRange(mainCols, |colMapping|)
    && (forall k :: 0 <= k < |mainCols| ==> colMapping[mainCols[k]] == |mainCols| - 1 - k)
    && (forall c :: 0 <= c < |colMapping| && c !in mainCols ==> colMapping[c] == -1)
  }

  method BuildMapping(mainCols: seq<nat>, size: nat) returns (colMapping: seq<int>)
    requires Distinct(mainCols) && InRange(mainCols, size)
    ensures |colMapping| == size && IsMapping(colMapping, mainCols)
  {
    var m := |mainCols|;
    colMapping := seq(size, _ => -1);
    for i := 0 to m
      invariant |colMapping| == size
      invariant forall k :: m - i <= k < m ==> colMapping[mainCols[k]] == m - 1 - k
      invariant forall c :: 0 <= c < size && c !in mainCols[m - i..] ==> colMapping[c] == -1
    {
      assert mainCols[m - i - 1..] == [mainCols[m - i - 1]] + mainCols[m - i..];
      colMapping := colMapping[mainCols[m - i - 1] := i];
    }
    assert mainCols[m - m..] == mainCols;
  }

  /** The set holds the C-indices of exactly the main columns in the given support. */
  ghost predicate Tracks(row: set<nat>, mainCols: seq<nat>, support: set<nat>) {
    && (forall x :: x in row ==> x < |mainCols|)
    && (forall k :: 0 <= k < |mainCols| ==> (|mainCols| - 1 - k in row <==> mainCols[k] in support))
  }

  /** Xoring one column of a row of C into the tracked row. */
  method Toggle(row: set<nat>, colMapping: seq<int>, mainCols: seq<nat>, c: nat, ghost support: set<nat>)
    returns (row': set<nat>)
    requires IsMapping(colMapping, mainCols) && Distinct(mainCols) && c < |colMapping|
    requires Tracks(row, mainCols, support)
    ensures Tracks(row', mainCols, SymDiff(support, {c}))
  {
    var j := colMapping[c];
    if j == -1 {
      row' := row;
    } else if j !in row {
      row' := row + {j};
    } else {
      row' := row - {j};
    }
  }

  lemma LargestExists(s: set<nat>)
    requires s != {}
    ensures exists x :: x in s && forall y :: y in s ==> y <= x
  {
    var x :| x in s;
    if s == {x} {
    } else {
      LargestExists(s - {x});
      var z :| z in s - {x} && forall y :: y in s - {x} ==> y <= z;
      var largest := if x <= z then z else x;
      forall y | y in s
        ensures y <= largest
      {
        assert y == x || y in s - {x};
      }
      assert largest in s;
    }
  }

  /** Adding main row k to a row whose earliest main column is k leaves only later main columns. */
  lemma LaterColumns(
    rows: seq<seq<nat>>, mainRows: seq<nat>, mainCols: seq<nat>, row: set<nat>, row': set<nat>,
    support: set<nat>, ccol: nat)
    requires Triangular(rows, mainRows, mainCols) && ccol < |mainCols| && ccol in row
    requires forall x :: x in row ==> x <= ccol
    requires Tracks(row, mainCols, support)
    requires Tracks(row', mainCols, SymDiff(support, Entries(rows[mainRows[|mainCols| - 1 - ccol]])))
    ensures forall x :: x in row' ==> x < ccol
  {
    var m := |mainCols|;
    var k := m - 1 - ccol;
    forall x | x in row'
      ensures x < ccol
    {
      var j := m - 1 - x;
      assert x == m - 1 - j;
      assert mainCols[j] in SymDiff(support, Entries(rows[mainRows[k]]));
      assert ccol == m - 1 - k && mainCols[k] in support && mainCols[k] in rows[mainRows[k]];
    }
  }

  /** Xors rows of C into a gap row, the largest index first, until it is zero on C. */
  method ReduceRow(
    rows: seq<seq<nat>>, size: nat, mainRows: seq<nat>, mainCols: seq<nat>, colMapping: seq<int>, r: nat)
    returns (added: seq<nat>)
    requires r < |rows| && Triangular(rows, mainRows, mainCols) && Distinct(mainCols)
    requires forall q :: 0 <= q < |rows| ==> Distinct(rows[q]) && InRange(rows[q], size)
    requires |colMapping| == size && IsMapping(colMapping, mainCols)
    ensures InRange(added, |rows|) && (forall x :: x in added ==> x in mainRows)
    ensures Residual(rows, r, added) !! Entries(mainCols)
  {
    hide Triangular, IsMapping;
    var row: set<nat> := {};
    var m := |mainCols|;
    TriangularShape(rows, mainRows, mainCols);
    NothingTracked(mainCols);
    for j := 0 to |rows[r]|
      invariant Tracks(row, mainCols, Entries(rows[r][..j]))
    {
      var c1 := rows[r][j];
      var next := Toggle(row, colMapping, mainCols, c1, Entries(rows[r][..j]));
      NextEntry(rows[r], j);
      row := next;
    }
    assert rows[r][..|rows[r]|] == rows[r];
    added := [];
    ghost var bound := m;
    while row != {}
      invariant InRange(added, |rows|) && (forall x :: x in added ==> x in mainRows)
      invariant Tracks(row, mainCols, Residual(rows, r, added))
      invariant forall x :: x in row ==> x < bound
      decreases bound
    {
      LargestExists(row);
      var ccol :| ccol in row && forall y :: y in row ==> y <= ccol;
      var hrow := mainRows[m - 1 - ccol];
      ghost var row0, support := row, Residual(rows, r, added);
      row := AddRow(rows[hrow], colMapping, mainCols, row, support);
      ResidualAppend(rows, r, added, hrow);
      LaterColumns(rows, mainRows, mainCols, row0, row, support, ccol);
      added := added + [hrow];
      bound := ccol;
    }
    NoColumnLeft(mainCols, Residual(rows, r, added));
  }

  /** Xors one whole row of C into the tracked row. */
  method AddRow(hrow: seq<nat>, colMapping: seq<int>, mainCols: seq<nat>, row: set<nat>, ghost support: set<nat>)
    returns (row': set<nat>)
    requires IsMapping(colMapping, mainCols) && Distinct(mainCols) && Distinct(hrow) && InRange(hrow, |colMapping|)
    requires Tracks(row, mainCols, support)
    ensures Tracks(row', mainCols, SymDiff(support, Entries(hrow)))
  {
    hide IsMapping, Tracks;
    row' := row;
    assert SymDiff(support, Entries(hrow[..0])) == support;
    for j := 0 to |hrow|
      invariant Tracks(row', mainCols, SymDiff(support, Entries(hrow[..j])))
    {
      row' := Toggle(row', colMapping, mainCols, hrow[j], SymDiff(support, Entries(hrow[..j])));
      NextEntry(hrow, j);
      SymDiffAssoc(support, Entries(hrow[..j]), {hrow[j]});
    }
    assert hrow[..|hrow|] == hrow;
  }

  lemma NextEntry(row: seq<nat>, j: nat)
    requires j < |row| && Distinct(row)
    ensures Entries(row[..j + 1]) == SymDiff(Entries(row[..j]), {row[j]})
  {
    assert row[..j + 1] == row[..j] + [row[j]];
  }

  lemma SymDiffAssoc(a: set<nat>, b: set<nat>, c: set<nat>)
    ensures SymDiff(SymDiff(a, b), c) == SymDiff(a, SymDiff(b, c))
  {
  }

  lemma NothingTracked(mainCols: seq<nat>)
    ensures forall row: seq<nat> :: Tracks({}, mainCols, Entries(row[..0]))
  {
  }

  lemma TriangularShape(rows: seq<seq<nat>>, mainRows: seq<nat>, mainCols: seq<nat>)
    requires Triangular(rows, mainRows, mainCols)
    ensures |mainRows| == |mainCols| && forall k :: 0 <= k < |mainRows| ==> mainRows[k] < |rows|
  {
  }

  lemma NoColumnLeft(mainCols: seq<nat>, support: set<nat>)
    requires Tracks({}, mainCols, support)
    ensures support !! Entries(mainCols)
  {
  }

  /** One list of main rows for every gap row, such that adding them clears the gap row on every main column. */
  ghost predicate ClearsGaps(
    rows: seq<seq<nat>>, mainRows: seq<nat>, mainCols: seq<nat>, gapRows: seq<(nat, nat)>, fcinv: seq<seq<nat>>)
  {
    && |fcinv| == |gapRows|
    && forall i :: 0 <= i < |gapRows| ==> ClearsGap(rows, mainRows, mainCols, gapRows[i].0, fcinv[i])
  }

  ghost predicate ClearsGap(rows: seq<seq<nat>>, mainRows: seq<nat>, mainCols: seq<nat>, r: nat, added: seq<nat>) {
    && r < |rows| && InRange(added, |rows|) && (forall x :: x in added ==> x in mainRows)
    && Residual(rows, r, added) !! Entries(mainCols)
  }

  /** A gap row equal to its main row is cleared by that one row. */
  ghost predicate TakesShortcut(rows: seq<seq<nat>>, gap: (nat, nat), added: seq<nat>) {
    && gap.0 < |rows| && gap.1 < |rows|
    && (rows[gap.0] == rows[gap.1] ==> added == [gap.1])
  }

  lemma ShortcutTaken(rows: seq<seq<nat>>, gap: (nat, nat), added: seq<nat>)
    requires gap.0 < |rows| && gap.1 < |rows| && (rows[gap.0] == rows[gap.1] ==> added == [gap.1])
    ensures TakesShortcut(rows, gap, added)
  {}

  method GetFCInv<H>(rows: seq<seq<nat>>, ghost dense: seq<H>, size: nat, t: Triangle) returns (fcinv: seq<seq<nat>>)
    requires Triangulated(rows, dense, size, t)
    requires forall q :: 0 <= q < |rows| ==> Distinct(rows[q]) && InRange(rows[q], size)
    ensures ClearsGaps(rows, t.mainRows, t.mainCols, t.gapRows, fcinv)
    ensures forall i :: 0 <= i < |fcinv| ==> TakesShortcut(rows, t.gapRows[i], fcinv[i])
  {
    hide ClearsGap, GapRow, HasMainRow, Triangular, IsMapping, SplitsRows, Below, TakesShortcut;
    var colMapping: seq<int> := [];
    fcinv := [];
    for i := 0 to |t.gapRows|
      invariant |fcinv| == i
      invariant colMapping == [] || (|colMapping| == size && IsMapping(colMapping, t.mainCols))
      invariant forall j :: 0 <= j < i ==> ClearsGap(rows, t.mainRows, t.mainCols, t.gapRows[j].0, fcinv[j])
      invariant forall j :: 0 <= j < i ==> TakesShortcut(rows, t.gapRows[j], fcinv[j])
    {
      var gap := t.gapRows[i];
      assert HasMainRow(rows, dense, t.mainRows, t.mainCols, gap);
      GapShape(rows, dense, t.mainRows, t.mainCols, gap);
      if rows[gap.0] == rows[gap.1] {
        SameRow(rows, t.mainRows, t.mainCols, gap);
        ShortcutTaken(rows, gap, [gap.1]);
        fcinv := fcinv + [[gap.1]];
      } else {
        if |colMapping| == 0 {
          MainColsInRange(t.mainCols, size);
          colMapping := BuildMapping(t.mainCols, size);
        }
        var added := ReduceRow(rows, size, t.mainRows, t.mainCols, colMapping, gap.0);
        RowCleared(rows, t.mainRows, t.mainCols, gap.0, added);
        ShortcutTaken(rows, gap, added);
        fcinv := fcinv + [added];
      }
    }
  }

  lemma MainColsInRange(mainCols: seq<nat>, size: nat)
    requires Entries(mainCols) <= Below(size)
    ensures InRange(mainCols, size)
  {
    forall k | 0 <= k < |mainCols|
      ensures mainCols[k] < size
    {
      assert mainCols[k] in Entries(mainCols);
    }
  }

  lemma RowCleared(rows: seq<seq<nat>>, mainRows: seq<nat>, mainCols: seq<nat>, r: nat, added: seq<nat>)
    requires r < |rows| && InRange(added, |rows|) && (forall x :: x in added ==> x in mainRows)
    requires Residual(rows, r, added) !! Entries(mainCols)
    ensures ClearsGap(rows, mainRows, mainCols, r, added)
  {
  }

  lemma GapShape<H>(rows: seq<seq<nat>>, dense: seq<H>, mainRows: seq<nat>, mainCols: seq<nat>, gap: (nat, nat))
    requires |dense| == |rows| && HasMainRow(rows, dense, mainRows, mainCols, gap)
    ensures gap.0 < |rows| && gap.1 < |rows| && gap.1 in mainRows
  {
    var k: nat :| GapRow(rows, dense, mainRows, mainCols, gap, k);
  }

  /** A gap row equal to its main row is cleared by that row alone, on every column. */
  lemma SameRow(rows: seq<seq<nat>>, mainRows: seq<nat>, mainCols: seq<nat>, gap: (nat, nat))
    requires gap.0 < |rows| && gap.1 < |rows| && gap.1 in mainRows && rows[gap.0] == rows[gap.1]
    ensures Residual(rows, gap.0, [gap.1]) == {}
    ensures ClearsGap(rows, mainRows, mainCols, gap.0, [gap.1])
  {
    ResidualAppend(rows, gap.0, [], gap.1);
    assert [] + [gap.1] == [gap.1];
  }
}
