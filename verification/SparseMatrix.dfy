/** The sparse part of the paxos matrix: its rows, its columns, and what peeling establishes about them. */
module SparseMatrix {
  import opened Algebra
  import opened WeightSets

  /** Every row has the given weight, distinct entries, and entries below size. */
  ghost predicate GoodRows(rows: seq<seq<nat>>, weight: nat, size: nat) {
    forall r :: 0 <= r < |rows| ==> |rows[r]| == weight && Distinct(rows[r]) && InRange(rows[r], size)
  }

  /** The rows below k that contain column c, in increasing order. */
  ghost function ColumnOf(rows: seq<seq<nat>>, c: nat, k: nat): seq<nat>
    requires k <= |rows|
  {
    if k == 0 then [] else
    var col := ColumnOf(rows, c, k - 1);
    if c in rows[k - 1] then col + [k - 1] else col
  }

  /** A column lists each row that contains it exactly once, in increasing order. */
  lemma {:induction false} ColumnMembers(rows: seq<seq<nat>>, c: nat, k: nat)
    requires k <= |rows|
    ensures var col := ColumnOf(rows, c, k);
      && (forall r: nat :: r in col <==> r < k && c in rows[r])
      && (forall i, j :: 0 <= i < j < |col| ==> col[i] < col[j])
  {
    if k > 0 {
      ColumnMembers(rows, c, k - 1);
      var col := ColumnOf(rows, c, k - 1);
      assert forall i :: 0 <= i < |col| ==> col[i] in col;
    }
  }

  /** The unset rows that contain column c. */
  ghost function UnsetIn(rows: seq<seq<nat>>, unset: set<nat>, c: nat): set<nat>
    requires forall r :: r in unset ==> r < |rows|
  {
    set r | r in unset && c in rows[r]
  }

  /** Main row k contains main column k and no main column chosen earlier. */
  ghost predicate Triangular(rows: seq<seq<nat>>, mainRows: seq<nat>, mainCols: seq<nat>) {
    && |mainRows| == |mainCols|
    && (forall k :: 0 <= k < |mainRows| ==> mainRows[k] < |rows| && mainCols[k] in rows[mainRows[k]])
    && (forall j, k :: 0 <= j < k < |mainRows| ==> mainCols[j] !in rows[mainRows[k]])
  }

  /** A gap row is paired with the main row of the first main column that it contains, of a different dense hash. */
  ghost predicate GapRow<H>(
    rows: seq<seq<nat>>, dense: seq<H>, mainRows: seq<nat>, mainCols: seq<nat>, gap: (nat, nat), t: nat)
    requires |dense| == |rows|
  {
    && gap.0 < |rows| && t < |mainRows| == |mainCols| && gap.1 == mainRows[t] < |rows|
    && mainCols[t] in rows[gap.0]
    && (forall j :: 0 <= j < t ==> mainCols[j] !in rows[gap.0])
    && dense[gap.0] != dense[gap.1]
  }

  ghost predicate HasMainRow<H>(
    rows: seq<seq<nat>>, dense: seq<H>, mainRows: seq<nat>, mainCols: seq<nat>, gap: (nat, nat))
    requires |dense| == |rows|
  {
    exists t: nat :: GapRow(rows, dense, mainRows, mainCols, gap, t)
  }

  ghost predicate GapRows<H>(
    rows: seq<seq<nat>>, dense: seq<H>, mainRows: seq<nat>, mainCols: seq<nat>, gapRows: seq<(nat, nat)>)
    requires |dense| == |rows|
  {
    forall i :: 0 <= i < |gapRows| ==> HasMainRow(rows, dense, mainRows, mainCols, gapRows[i])
  }

  function Firsts(gapRows: seq<(nat, nat)>): (r: seq<nat>)
    ensures |r| == |gapRows|
    ensures forall i :: 0 <= i < |r| ==> r[i] == gapRows[i].0
  {
    if gapRows == [] then [] else Firsts(gapRows[..|gapRows| - 1]) + [gapRows[|gapRows| - 1].0]
  }

  /** The main rows and the gap rows split the set rows exactly. */
  ghost predicate SplitsRows(mainRows: seq<nat>, gapRows: seq<(nat, nat)>, done: set<nat>) {
    && Distinct(mainRows + Firsts(gapRows))
    && Entries(mainRows + Firsts(gapRows)) == done
  }

  lemma {:induction false} DistinctSize(s: seq<nat>)
    requires Distinct(s)
    ensures |Entries(s)| == |s|
  {
    if s != [] {
      var t := s[..|s| - 1];
      DistinctSize(t);
      assert Entries(s) == Entries(t) + {s[|s| - 1]};
    }
  }

  lemma SubsetSize(a: set<nat>, b: set<nat>)
    requires a <= b
    ensures |a| <= |b|
  {
    assert b == a + (b - a);
  }

  /** Removing row r from the unset rows lowers the count of exactly its columns. */
  lemma UnsetStep(rows: seq<seq<nat>>, unset: set<nat>, r: nat, c: nat)
    requires (forall q :: q in unset ==> q < |rows|) && r in unset
    ensures |UnsetIn(rows, unset - {r}, c)| == |UnsetIn(rows, unset, c)| - (if c in rows[r] then 1 else 0)
    ensures c in rows[r] ==> |UnsetIn(rows, unset, c)| > 0
  {
    if c in rows[r] {
      assert UnsetIn(rows, unset - {r}, c) == UnsetIn(rows, unset, c) - {r};
    } else {
      assert UnsetIn(rows, unset - {r}, c) == UnsetIn(rows, unset, c);
    }
  }

  // The transpose: columns as spans of one backing array.

  datatype Span = Span(start: nat, len: nat)

  function Prefix(ws: seq<nat>, c: nat): nat
    requires c <= |ws|
  {
    if c == 0 then 0 else Prefix(ws, c - 1) + ws[c - 1]
  }

  lemma {:induction false} PrefixMono(ws: seq<nat>, c: nat, d: nat)
    requires c < d <= |ws|
    ensures Prefix(ws, c) + ws[c] <= Prefix(ws, d)
  {
    if c + 1 < d {
      PrefixMono(ws, c, d - 1);
    }
  }

  lemma {:induction false} PrefixUpdate(ws: seq<nat>, c: nat, d: nat)
    requires d <= |ws| && c < |ws|
    ensures Prefix(ws[c := ws[c] + 1], d) == Prefix(ws, d) + (if c < d then 1 else 0)
  {
    if d > 0 {
      PrefixUpdate(ws, c, d - 1);
    }
  }

  /** The column as filled after i whole rows and the first j entries of row i. */
  ghost function PartColumn(rows: seq<seq<nat>>, c: nat, i: nat, j: nat): seq<nat>
    requires i <= |rows| && (i == |rows| ==> j == 0) && (i < |rows| ==> j <= |rows[i]|)
  {
    ColumnOf(rows, c, i) + if i < |rows| && c in rows[i][..j] then [i] else []
  }

  lemma PartColumnRow(rows: seq<seq<nat>>, c: nat, i: nat)
    requires i < |rows|
    ensures PartColumn(rows, c, i, |rows[i]|) == ColumnOf(rows, c, i + 1)
  {
    assert rows[i][..|rows[i]|] == rows[i];
  }

  lemma {:induction false} ColumnGrows(rows: seq<seq<nat>>, c: nat, i: nat, n: nat)
    requires i < n <= |rows| && c in rows[i]
    ensures |ColumnOf(rows, c, i)| < |ColumnOf(rows, c, n)|
  {
    ColumnPrefix(rows, c, i + 1, n);
  }

  lemma {:induction false} ColumnPrefix(rows: seq<seq<nat>>, c: nat, i: nat, n: nat)
    requires i <= n <= |rows|
    ensures ColumnOf(rows, c, i) <= ColumnOf(rows, c, n)
  {
    if i < n {
      ColumnPrefix(rows, c, i, n - 1);
    }
  }

  ghost predicate CountsColumns(ws: seq<nat>, rows: seq<seq<nat>>) {
    forall c :: 0 <= c < |ws| ==> ws[c] == |ColumnOf(rows, c, |rows|)|
  }

  /** The same for what has been counted after i whole rows and the first j entries of row i. */
  ghost predicate CountsPart(ws: seq<nat>, rows: seq<seq<nat>>, i: nat, j: nat)
    requires i <= |rows| && (i == |rows| ==> j == 0) && (i < |rows| ==> j <= |rows[i]|)
  {
    forall c :: 0 <= c < |ws| ==> ws[c] == |PartColumn(rows, c, i, j)|
  }

  lemma CountStep(ws: seq<nat>, rows: seq<seq<nat>>, i: nat, j: nat)
    requires i < |rows| && j < |rows[i]| && Distinct(rows[i]) && CountsPart(ws, rows, i, j)
    requires rows[i][j] < |ws|
    ensures CountsPart(ws[rows[i][j] := ws[rows[i][j]] + 1], rows, i, j + 1)
  {
    var ws', j' := ws[rows[i][j] := ws[rows[i][j]] + 1], j + 1;
    forall c | 0 <= c < |ws|
      ensures ws'[c] == |PartColumn(rows, c, i, j')|
    {
      PartNext(rows, c, i, j);
    }
  }

  lemma CountNone(ws: seq<nat>, rows: seq<seq<nat>>)
    requires forall c :: 0 <= c < |ws| ==> ws[c] == 0
    ensures CountsPart(ws, rows, 0, 0)
  {
  }

  lemma CountDone(ws: seq<nat>, rows: seq<seq<nat>>)
    requires CountsPart(ws, rows, |rows|, 0)
    ensures CountsColumns(ws, rows)
  {
    forall c | 0 <= c < |ws| {
      PartColumnStart(rows, c, |rows|);
    }
  }

  lemma CountsBounded(ws: seq<nat>, rows: seq<seq<nat>>)
    requires CountsColumns(ws, rows)
    requires forall c :: 0 <= c < |ws| ==> |ColumnOf(rows, c, |rows|)| < INITIAL_SETS
    ensures forall c :: 0 <= c < |ws| ==> ws[c] < INITIAL_SETS
    ensures forall c :: 0 <= c < |ws| ==> ws[c] == |ColumnOf(rows, c, |rows|)|
  {
  }

  lemma CountRowDone(ws: seq<nat>, rows: seq<seq<nat>>, i: nat)
    requires i < |rows| && CountsPart(ws, rows, i, |rows[i]|)
    ensures CountsPart(ws, rows, i + 1, 0)
  {
    var k := i + 1;
    forall c | 0 <= c < |ws|
      ensures ws[c] == |PartColumn(rows, c, k, 0)|
    {
      PartColumnRow(rows, c, i);
      PartColumnStart(rows, c, k);
    }
  }

  ghost predicate HoldsColumn(backing: seq<nat>, span: Span, col: seq<nat>) {
    span.len == |col| && span.start + span.len <= |backing| && backing[span.start..span.start + span.len] == col
  }

  /** After i whole rows and the first j entries of row i: the span of column c holds what was seen of it. */
  ghost predicate FilledAt(
    backing: seq<nat>, cols: seq<Span>, ws: seq<nat>, rows: seq<seq<nat>>, i: nat, j: nat, c: nat)
    requires i <= |rows| && (i == |rows| ==> j == 0) && (i < |rows| ==> j <= |rows[i]|)
    requires |cols| == |ws| && c < |ws|
  {
    cols[c].start == Prefix(ws, c) && HoldsColumn(backing, cols[c], PartColumn(rows, c, i, j))
  }

  ghost predicate Filled(backing: seq<nat>, cols: seq<Span>, ws: seq<nat>, rows: seq<seq<nat>>, i: nat, j: nat)
    requires i <= |rows| && (i == |rows| ==> j == 0) && (i < |rows| ==> j <= |rows[i]|)
  {
    |cols| == |ws| && forall c :: 0 <= c < |ws| ==> FilledAt(backing, cols, ws, rows, i, j, c)
  }

  /** Room for one more entry in the column of an unfilled entry. */
  lemma SpanRoom(backing: seq<nat>, cols: seq<Span>, ws: seq<nat>, rows: seq<seq<nat>>, weight: nat, i: nat, j: nat)
    requires GoodRows(rows, weight, |ws|) && i < |rows| && j < weight
    requires CountsColumns(ws, rows) && Prefix(ws, |ws|) == |backing| && Filled(backing, cols, ws, rows, i, j)
    ensures var c := rows[i][j];
      c < |ws| == |cols| && cols[c].len < ws[c] && cols[c].start + cols[c].len < |backing|
  {
    var c := rows[i][j];
    assert FilledAt(backing, cols, ws, rows, i, j, c);
    ColumnGrows(rows, c, i, |rows|);
    PrefixMono(ws, c, |ws|);
    assert c !in rows[i][..j];
  }

  lemma RowWidth(rows: seq<seq<nat>>, weight: nat, size: nat, i: nat)
    requires GoodRows(rows, weight, size) && i < |rows|
    ensures |rows[i]| == weight && Distinct(rows[i]) && InRange(rows[i], size)
  {}

  /** Writing row number i at the end of the span of its j-th column. */
  lemma FillStep(backing: seq<nat>, cols: seq<Span>, ws: seq<nat>, rows: seq<seq<nat>>, weight: nat, i: nat, j: nat)
    requires GoodRows(rows, weight, |ws|) && i < |rows| && j < weight
    requires CountsColumns(ws, rows) && Prefix(ws, |ws|) == |backing| && Filled(backing, cols, ws, rows, i, j)
    requires var c := rows[i][j]; c < |ws| && cols[c].len < ws[c] && cols[c].start + cols[c].len < |backing|
    ensures var c := rows[i][j];
      Filled(backing[cols[c].start + cols[c].len := i], cols[c := Span(cols[c].start, cols[c].len + 1)], ws, rows, i,
        j + 1)
  {
    hide HoldsColumn, PartColumn, GoodRows, CountsColumns, FilledAt, Prefix;
    RowWidth(rows, weight, |ws|, i);
    var c := rows[i][j];
    var backing' := backing[cols[c].start + cols[c].len := i];
    var cols' := cols[c := Span(cols[c].start, cols[c].len + 1)];
    var j' := j + 1;
    forall d | 0 <= d < |ws|
      ensures FilledAt(backing', cols', ws, rows, i, j', d)
    {
      FillStepAt(backing, cols, ws, rows, weight, i, j, d);
    }
  }

  lemma FillStepAt(
    backing: seq<nat>, cols: seq<Span>, ws: seq<nat>, rows: seq<seq<nat>>, weight: nat, i: nat, j: nat, d: nat)
    requires GoodRows(rows, weight, |ws|) && i < |rows| && j < weight && d < |ws|
    requires CountsColumns(ws, rows) && Prefix(ws, |ws|) == |backing| && Filled(backing, cols, ws, rows, i, j)
    requires var c := rows[i][j]; c < |ws| && cols[c].len < ws[c] && cols[c].start + cols[c].len < |backing|
    ensures var c := rows[i][j];
      FilledAt(backing[cols[c].start + cols[c].len := i], cols[c := Span(cols[c].start, cols[c].len + 1)], ws, rows,
        i, j + 1, d)
  {
    hide HoldsColumn, PartColumn, GoodRows, CountsColumns, Prefix;
    RowWidth(rows, weight, |ws|, i);
    var c := rows[i][j];
    assert FilledAt(backing, cols, ws, rows, i, j, d) && FilledAt(backing, cols, ws, rows, i, j, c);
    PartFits(ws, rows, weight, d, i, j);
    PartNext(rows, d, i, j);
    FillColumn(backing, cols[c], cols[d], ws, c, d, PartColumn(rows, d, i, j), i);
  }

  lemma FillColumn(backing: seq<nat>, at: Span, span: Span, ws: seq<nat>, c: nat, d: nat, part: seq<nat>, i: nat)
    requires c < |ws| && d < |ws| && at.start == Prefix(ws, c) && span.start == Prefix(ws, d)
    requires at.len < ws[c] && at.start + at.len < |backing|
    requires (d == c ==> span == at) && |part| <= ws[d] && HoldsColumn(backing, span, part)
    ensures d == c ==> HoldsColumn(backing[at.start + at.len := i], Span(at.start, at.len + 1), part + [i])
    ensures d != c ==> HoldsColumn(backing[at.start + at.len := i], span, part)
  {
    hide HoldsColumn;
    if d == c {
      HoldsAppend(backing, span, part, i);
    } else {
      if d < c {
        PrefixMono(ws, d, c);
      } else {
        PrefixMono(ws, c, d);
      }
      HoldsFrame(backing, at.start + at.len, i, span, part);
    }
  }

  lemma HoldsFrame(backing: seq<nat>, pos: nat, v: nat, span: Span, col: seq<nat>)
    requires HoldsColumn(backing, span, col) && pos < |backing|
    requires pos < span.start || span.start + |col| <= pos
    ensures HoldsColumn(backing[pos := v], span, col)
  {
    assert backing[pos := v][span.start..span.start + span.len] == backing[span.start..span.start + span.len];
  }

  lemma HoldsAppend(backing: seq<nat>, span: Span, col: seq<nat>, v: nat)
    requires HoldsColumn(backing, span, col) && span.start + span.len < |backing|
    ensures HoldsColumn(backing[span.start + span.len := v], Span(span.start, span.len + 1), col + [v])
  {
  }

  lemma PartNext(rows: seq<seq<nat>>, d: nat, i: nat, j: nat)
    requires i < |rows| && j < |rows[i]| && Distinct(rows[i])
    ensures d == rows[i][j] ==> PartColumn(rows, d, i, j + 1) == PartColumn(rows, d, i, j) + [i]
    ensures d != rows[i][j] ==> PartColumn(rows, d, i, j + 1) == PartColumn(rows, d, i, j)
  {
    assert rows[i][..j + 1] == rows[i][..j] + [rows[i][j]];
  }

  lemma PartFits(ws: seq<nat>, rows: seq<seq<nat>>, weight: nat, d: nat, i: nat, j: nat)
    requires GoodRows(rows, weight, |ws|) && i < |rows| && j <= weight && d < |ws| && CountsColumns(ws, rows)
    ensures |PartColumn(rows, d, i, j)| <= ws[d]
  {
    ColumnPrefix(rows, d, i, |rows|);
    if d in rows[i][..j] {
      ColumnGrows(rows, d, i, |rows|);
    }
  }

  lemma {:induction false} PrefixZero(n: nat)
    ensures Prefix(seq(n, _ => 0), n) == 0
  {
    if n > 0 {
      PrefixZero(n - 1);
      PrefixAgree(seq(n, _ => 0), seq(n - 1, _ => 0), n - 1);
    }
  }

  lemma {:induction false} PrefixAgree(ws: seq<nat>, vs: seq<nat>, n: nat)
    requires n <= |ws| && n <= |vs| && forall i :: 0 <= i < n ==> ws[i] == vs[i]
    ensures Prefix(ws, n) == Prefix(vs, n)
  {
    if n > 0 {
      PrefixAgree(ws, vs, n - 1);
    }
  }

  lemma FillNone(backing: seq<nat>, cols: seq<Span>, ws: seq<nat>, rows: seq<seq<nat>>)
    requires |cols| == |ws| && Prefix(ws, |ws|) == |backing|
    requires forall c :: 0 <= c < |ws| ==> cols[c] == Span(Prefix(ws, c), 0)
    ensures Filled(backing, cols, ws, rows, 0, 0)
  {
    forall c | 0 <= c < |ws|
      ensures FilledAt(backing, cols, ws, rows, 0, 0, c)
    {
      PrefixMono(ws, c, |ws|);
      assert rows != [] ==> rows[0][..0] == [];
    }
  }

  lemma FillRowDone(backing: seq<nat>, cols: seq<Span>, ws: seq<nat>, rows: seq<seq<nat>>, i: nat)
    requires i < |rows| && Filled(backing, cols, ws, rows, i, |rows[i]|)
    ensures Filled(backing, cols, ws, rows, i + 1, 0)
  {
    var k := i + 1;
    forall c | 0 <= c < |ws|
      ensures FilledAt(backing, cols, ws, rows, k, 0, c)
    {
      assert FilledAt(backing, cols, ws, rows, i, |rows[i]|, c);
      PartColumnRow(rows, c, i);
      PartColumnStart(rows, c, k);
    }
  }

  lemma PartColumnStart(rows: seq<seq<nat>>, c: nat, i: nat)
    requires i <= |rows|
    ensures PartColumn(rows, c, i, 0) == ColumnOf(rows, c, i)
  {
  }

  /** The spans lie one after the other, each as long as its column weight. */
  ghost predicate TilesBacking(cols: seq<Span>, ws: seq<nat>) {
    |cols| == |ws| && forall c :: 0 <= c < |cols| ==> cols[c] == Span(Prefix(ws, c), ws[c])
  }

  lemma FillAll(backing: seq<nat>, cols: seq<Span>, ws: seq<nat>, rows: seq<seq<nat>>)
    requires CountsColumns(ws, rows) && Filled(backing, cols, ws, rows, |rows|, 0)
    ensures TilesBacking(cols, ws)
    ensures forall c :: 0 <= c < |cols| ==> HoldsColumn(backing, cols[c], ColumnOf(rows, c, |rows|))
  {
    forall c | 0 <= c < |cols|
      ensures cols[c] == Span(Prefix(ws, c), ws[c]) && HoldsColumn(backing, cols[c], ColumnOf(rows, c, |rows|))
    {
      assert FilledAt(backing, cols, ws, rows, |rows|, 0, c);
      PartColumnStart(rows, c, |rows|);
    }
  }
}
