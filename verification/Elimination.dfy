/** Gauss-Jordan elimination: the row operations, what they preserve, and the in-place inversion. */
module Elimination {
  import opened Wrappers
  import opened Algebra
  import opened Gf128

  ghost predicate Square<F>(m: seq<seq<F>>, n: nat) {
    |m| == n && forall r :: 0 <= r < n ==> |m[r]| == n
  }

  /** The matrix and the right-hand factor that is transformed along with it. */
  datatype Pair<F> = Pair(m: seq<seq<F>>, inv: seq<seq<F>>)

  ghost predicate IsPair<F>(a: Pair<F>, n: nat) {
    Square(a.m, n) && Square(a.inv, n)
  }

  ghost predicate RowHolds<F, V>(s: Space<F, V>, a: Pair<F>, n: nat, p: seq<V>, x: seq<V>, r: nat)
    requires IsPair(a, n) && |p| == |x| == n && r < n
  {
    Dot(s, a.m[r], p, n) == Dot(s, a.inv[r], x, n)
  }

  /** p solves m p = inv x. */
  ghost predicate Solves<F, V>(s: Space<F, V>, a: Pair<F>, n: nat, p: seq<V>, x: seq<V>)
    requires IsPair(a, n) && |p| == |x| == n
  {
    forall r :: 0 <= r < n ==> RowHolds(s, a, n, p, x, r)
  }

  // The row operations.

  function Scaled<F, V>(s: Space<F, V>, row: seq<F>, c: F): seq<F> {
    seq(|row|, k requires 0 <= k < |row| => s.times(row[k], c))
  }

  function Added<F, V>(s: Space<F, V>, row: seq<F>, pivot: seq<F>, c: F): seq<F>
    requires |pivot| == |row|
  {
    seq(|row|, k requires 0 <= k < |row| => s.plus(row[k], s.times(pivot[k], c)))
  }

  ghost function SwapRows<F>(a: Pair<F>, n: nat, i: nat, j: nat): (b: Pair<F>)
    requires IsPair(a, n) && i < n && j < n
    ensures IsPair(b, n)
  {
    Pair(a.m[i := a.m[j]][j := a.m[i]], a.inv[i := a.inv[j]][j := a.inv[i]])
  }

  ghost function ScaleRow<F, V>(s: Space<F, V>, a: Pair<F>, n: nat, i: nat, c: F): (b: Pair<F>)
    requires IsPair(a, n) && i < n
    ensures IsPair(b, n)
  {
    Pair(a.m[i := Scaled(s, a.m[i], c)], a.inv[i := Scaled(s, a.inv[i], c)])
  }

  ghost function AddRow<F, V>(s: Space<F, V>, a: Pair<F>, n: nat, i: nat, j: nat, c: F): (b: Pair<F>)
    requires IsPair(a, n) && i < n && j < n
    ensures IsPair(b, n)
  {
    Pair(a.m[j := Added(s, a.m[j], a.m[i], c)], a.inv[j := Added(s, a.inv[j], a.inv[i], c)])
  }

  /** The first row at or below j whose entry in column i is one; n if there is none. */
  ghost function FindOne<F, V>(s: Space<F, V>, a: Pair<F>, n: nat, i: nat, j: nat): (k: nat)
    requires IsPair(a, n) && i < n && j <= n
    ensures j <= k <= n && (k < n ==> a.m[k][i] == s.one)
    ensures forall r :: j <= r < k ==> a.m[r][i] != s.one
    decreases n - j
  {
    if j == n || a.m[j][i] == s.one then j else FindOne(s, a, n, i, j + 1)
  }

  /** Brings a non-zero entry to position (i, i), or fails. */
  ghost function Pivot<F, V>(s: Space<F, V>, a: Pair<F>, n: nat, i: nat): (b: Option<Pair<F>>)
    requires IsPair(a, n) && i < n
    ensures b.Some? ==> IsPair(b.value, n)
  {
    if a.m[i][i] != s.zero then Some(a)
    else
      var j := FindOne(s, a, n, i, i + 1);
      if j == n then None else Some(SwapRows(a, n, i, j))
  }

  /** Clears column i in the rows below k, except row i. */
  ghost function Clear<F, V>(s: Space<F, V>, a: Pair<F>, n: nat, i: nat, k: nat): (b: Pair<F>)
    requires IsPair(a, n) && i < n && k <= n
    ensures IsPair(b, n)
  {
    if k == 0 then a
    else
      var b := Clear(s, a, n, i, k - 1);
      if k - 1 == i then b else AddRow(s, b, n, i, k - 1, b.m[k - 1][i])
  }

  /** One stage, after the pivot is in place. */
  ghost function Stage<F, V>(s: Space<F, V>, a: Pair<F>, n: nat, i: nat): (b: Pair<F>)
    requires IsPair(a, n) && i < n
    ensures IsPair(b, n)
  {
    Clear(s, ScaleRow(s, a, n, i, Pow(s, a.m[i][i], Tower(7) - 2)), n, i, n)
  }

  /** The elimination from stage i on: the transformed right-hand factor, or None for the empty matrix. */
  ghost function Eliminate<F, V>(s: Space<F, V>, a: Pair<F>, n: nat, i: nat): (r: Option<seq<seq<F>>>)
    requires IsPair(a, n) && i <= n
    decreases n - i
  {
    if i == n then Some(a.inv)
    else
      var b := Pivot(s, a, n, i);
      if b.None? then None else Eliminate(s, Stage(s, b.value, n, i), n, i + 1)
  }

  ghost function Identity<F, V>(s: Space<F, V>, n: nat): (m: seq<seq<F>>)
    ensures Square(m, n)
  {
    seq(n, i => seq(n, j => if i == j then s.one else s.zero))
  }

  // Every row operation keeps the solutions.

  lemma SwapSolves<F, V>(s: Space<F, V>, a: Pair<F>, n: nat, i: nat, j: nat, p: seq<V>, x: seq<V>)
    requires IsPair(a, n) && i < n && j < n && |p| == |x| == n
    ensures Solves(s, SwapRows(a, n, i, j), n, p, x) <==> Solves(s, a, n, p, x)
  {
    var b := SwapRows(a, n, i, j);
    forall r | 0 <= r < n
      ensures RowHolds(s, b, n, p, x, r) <==> RowHolds(s, a, n, p, x, if r == i then j else if r == j then i else r)
    {
    }
    if Solves(s, b, n, p, x) {
      forall r | 0 <= r < n
        ensures RowHolds(s, a, n, p, x, r)
      {
        assert RowHolds(s, b, n, p, x, if r == i then j else if r == j then i else r);
      }
    }
  }

  lemma DotScaled<F(!new), V(!new)>(s: Space<F, V>, row: seq<F>, c: F, p: seq<V>, n: nat)
    requires Laws(s) && |row| == |p| == n
    ensures Dot(s, Scaled(s, row, c), p, n) == s.scale(c, Dot(s, row, p, n))
  {
    forall k | 0 <= k < n
      ensures Scaled(s, row, c)[k] == s.times(c, row[k])
    {
      TimesLaws(s, row[k], c, c);
    }
    DotTimes(s, c, row, Scaled(s, row, c), p, n);
  }

  lemma DotAdded<F(!new), V(!new)>(s: Space<F, V>, row: seq<F>, pivot: seq<F>, c: F, p: seq<V>, n: nat)
    requires Laws(s) && |row| == |pivot| == |p| == n
    ensures Dot(s, Added(s, row, pivot, c), p, n) == s.xor(Dot(s, row, p, n), s.scale(c, Dot(s, pivot, p, n)))
  {
    DotScaled(s, pivot, c, p, n);
    DotPlus(s, row, Scaled(s, pivot, c), Added(s, row, pivot, c), p, n);
  }

  lemma ScaleCancel<F(!new), V(!new)>(s: Space<F, V>, d: F, c: F, a: V, b: V)
    requires Laws(s) && s.times(d, c) == s.one
    ensures s.scale(c, a) == s.scale(c, b) <==> a == b
  {
    ScalePlus(s, d, c, a);
    ScalePlus(s, d, c, b);
    ScalePlus(s, s.one, s.one, a);
    ScalePlus(s, s.one, s.one, b);
  }

  lemma ScaleSolves<F(!new), V(!new)>(
    s: Space<F, V>, a: Pair<F>, n: nat, i: nat, d: F, c: F, p: seq<V>, x: seq<V>)
    requires Laws(s) && s.times(d, c) == s.one
    requires IsPair(a, n) && i < n && |p| == |x| == n
    ensures Solves(s, ScaleRow(s, a, n, i, c), n, p, x) <==> Solves(s, a, n, p, x)
  {
    var b := ScaleRow(s, a, n, i, c);
    forall r | 0 <= r < n
      ensures RowHolds(s, b, n, p, x, r) <==> RowHolds(s, a, n, p, x, r)
    {
      if r == i {
        DotScaled(s, a.m[i], c, p, n);
        DotScaled(s, a.inv[i], c, x, n);
        ScaleCancel(s, d, c, Dot(s, a.m[i], p, n), Dot(s, a.inv[i], x, n));
      }
    }
  }

  lemma AddSolves<F(!new), V(!new)>(
    s: Space<F, V>, a: Pair<F>, n: nat, i: nat, j: nat, c: F, p: seq<V>, x: seq<V>)
    requires Laws(s) && IsPair(a, n) && i < n && j < n && i != j && |p| == |x| == n
    ensures Solves(s, AddRow(s, a, n, i, j, c), n, p, x) <==> Solves(s, a, n, p, x)
  {
    var b := AddRow(s, a, n, i, j, c);
    assert RowHolds(s, b, n, p, x, i) <==> RowHolds(s, a, n, p, x, i);
    if RowHolds(s, a, n, p, x, i) {
      forall r | 0 <= r < n
        ensures RowHolds(s, b, n, p, x, r) <==> RowHolds(s, a, n, p, x, r)
      {
        if r == j {
          DotAdded(s, a.m[j], a.m[i], c, p, n);
          DotAdded(s, a.inv[j], a.inv[i], c, x, n);
          var u := s.scale(c, Dot(s, a.m[i], p, n));
          XorCancel(s.vzero, s.xor, Dot(s, a.m[j], p, n), u);
          XorCancel(s.vzero, s.xor, Dot(s, a.inv[j], x, n), u);
        }
      }
    }
  }

  // Each stage turns one more column into a unit column.

  /** The first i columns are those of the identity. */
  ghost predicate UnitColumns<F, V>(s: Space<F, V>, a: Pair<F>, n: nat, i: nat)
    requires IsPair(a, n) && i <= n
  {
    forall r, q :: 0 <= r < n && 0 <= q < i ==> a.m[r][q] == if r == q then s.one else s.zero
  }

  lemma TimesZero<F(!new), V(!new)>(s: Space<F, V>, k: F)
    requires Laws(s)
    ensures s.times(s.zero, k) == s.zero && s.times(k, s.zero) == s.zero
  {
    RegularLaws(s);
    ScaleZero(Regular(s), k, k);
  }

  /** After the rows below k: they are zero in column i, and earlier columns are as they were. */
  lemma {:induction false} ClearColumn<F(!new), V(!new)>(s: Space<F, V>, a: Pair<F>, n: nat, i: nat, k: nat)
    requires Laws(s) && IsPair(a, n) && i < n && k <= n
    requires a.m[i][i] == s.one && forall q :: 0 <= q < i ==> a.m[i][q] == s.zero
    ensures var b := Clear(s, a, n, i, k);
      && b.m[i] == a.m[i]
      && (forall r :: 0 <= r < k && r != i ==> b.m[r][i] == s.zero)
      && (forall r :: k <= r < n ==> b.m[r] == a.m[r])
      && (forall r, q :: 0 <= r < n && 0 <= q < i ==> b.m[r][q] == a.m[r][q])
  {
    if k > 0 {
      ClearColumn(s, a, n, i, k - 1);
      if k - 1 != i {
        var b := Clear(s, a, n, i, k - 1);
        var c := b.m[k - 1][i];
        TimesLaws(s, c, s.one, c);
        XorZero(s.zero, s.plus, c);
        var added := Added(s, b.m[k - 1], b.m[i], c);
        forall q | 0 <= q < i
          ensures added[q] == b.m[k - 1][q]
        {
          TimesZero(s, c);
          XorZero(s.zero, s.plus, b.m[k - 1][q]);
        }
      }
    }
  }

  lemma StageUnits<F(!new), V(!new)>(s: Space<F, V>, a: Pair<F>, n: nat, i: nat)
    requires FieldLaws(s) && IsPair(a, n) && i < n && UnitColumns(s, a, n, i) && a.m[i][i] != s.zero
    ensures UnitColumns(s, Stage(s, a, n, i), n, i + 1)
  {
    var c := Pow(s, a.m[i][i], Tower(7) - 2);
    var b := ScaleRow(s, a, n, i, c);
    InverseLaw(s, a.m[i][i]);
    TimesZero(s, c);
    ClearColumn(s, b, n, i, n);
  }

  lemma {:induction false} ClearSolves<F(!new), V(!new)>(
    s: Space<F, V>, a: Pair<F>, n: nat, i: nat, k: nat, p: seq<V>, x: seq<V>)
    requires Laws(s) && IsPair(a, n) && i < n && k <= n && |p| == |x| == n
    ensures Solves(s, Clear(s, a, n, i, k), n, p, x) <==> Solves(s, a, n, p, x)
  {
    if k > 0 {
      ClearSolves(s, a, n, i, k - 1, p, x);
      if k - 1 != i {
        var b := Clear(s, a, n, i, k - 1);
        AddSolves(s, b, n, i, k - 1, b.m[k - 1][i], p, x);
      }
    }
  }

  lemma StageSolves<F(!new), V(!new)>(s: Space<F, V>, a: Pair<F>, n: nat, i: nat, p: seq<V>, x: seq<V>)
    requires FieldLaws(s) && IsPair(a, n) && i < n && a.m[i][i] != s.zero && |p| == |x| == n
    ensures Solves(s, Stage(s, a, n, i), n, p, x) <==> Solves(s, a, n, p, x)
  {
    var d := a.m[i][i];
    var c := Pow(s, d, Tower(7) - 2);
    InverseLaw(s, d);
    ScaleSolves(s, a, n, i, d, c, p, x);
    ClearSolves(s, ScaleRow(s, a, n, i, c), n, i, n, p, x);
  }

  lemma PivotStep<F(!new), V(!new)>(s: Space<F, V>, a: Pair<F>, n: nat, i: nat)
    requires FieldLaws(s) && IsPair(a, n) && i < n && UnitColumns(s, a, n, i) && Pivot(s, a, n, i).Some?
    ensures var b := Pivot(s, a, n, i).value;
      UnitColumns(s, b, n, i) && b.m[i][i] != s.zero
  {
  }

  lemma PivotSolves<F(!new), V(!new)>(s: Space<F, V>, a: Pair<F>, n: nat, i: nat, p: seq<V>, x: seq<V>)
    requires IsPair(a, n) && i < n && Pivot(s, a, n, i).Some? && |p| == |x| == n
    ensures Solves(s, Pivot(s, a, n, i).value, n, p, x) <==> Solves(s, a, n, p, x)
  {
    if a.m[i][i] == s.zero {
      SwapSolves(s, a, n, i, FindOne(s, a, n, i, i + 1), p, x);
    }
  }

  /** p is the product of the matrix and x. */
  ghost predicate IsProduct<F, V>(s: Space<F, V>, m: seq<seq<F>>, n: nat, p: seq<V>, x: seq<V>)
    requires Square(m, n) && |p| == |x| == n
  {
    forall r :: 0 <= r < n ==> p[r] == Dot(s, m[r], x, n)
  }

  /** If the elimination ends, the transformed factor gives the one solution of the system. */
  lemma {:induction false} EliminateSound<F(!new), V(!new)>(
    s: Space<F, V>, a: Pair<F>, n: nat, i: nat, p: seq<V>, x: seq<V>)
    requires FieldLaws(s) && IsPair(a, n) && i <= n && UnitColumns(s, a, n, i) && |p| == |x| == n
    requires Eliminate(s, a, n, i).Some?
    ensures Square(Eliminate(s, a, n, i).value, n)
    ensures Solves(s, a, n, p, x) <==> IsProduct(s, Eliminate(s, a, n, i).value, n, p, x)
    decreases n - i
  {
    if i == n {
      forall r | 0 <= r < n
        ensures RowHolds(s, a, n, p, x, r) <==> p[r] == Dot(s, a.inv[r], x, n)
      {
        DotUnit(s, a.m[r], p, n, r);
      }
    } else {
      var b := Pivot(s, a, n, i).value;
      PivotStep(s, a, n, i);
      PivotSolves(s, a, n, i, p, x);
      StageUnits(s, b, n, i);
      StageSolves(s, b, n, i, p, x);
      EliminateSound(s, Stage(s, b, n, i), n, i + 1, p, x);
    }
  }

  /** The result of inverting m: what the method below computes. */
  ghost function InverseOf<F, V>(s: Space<F, V>, m: seq<seq<F>>): (r: Option<seq<seq<F>>>)
    requires Square(m, |m|)
  {
    Eliminate(s, Pair(m, Identity(s, |m|)), |m|, 0)
  }

  /** Whenever an inverse is returned, its product with x is the one solution p of m p = x. */
  lemma InverseSound<F(!new), V(!new)>(s: Space<F, V>, m: seq<seq<F>>, p: seq<V>, x: seq<V>)
    requires FieldLaws(s) && Square(m, |m|) && InverseOf(s, m).Some? && |p| == |x| == |m|
    ensures Square(InverseOf(s, m).value, |m|)
    ensures IsProduct(s, InverseOf(s, m).value, |m|, p, x) <==> IsProduct(s, m, |m|, x, p)
  {
    var n := |m|;
    var a := Pair(m, Identity(s, n));
    EliminateSound(s, a, n, 0, p, x);
    forall r | 0 <= r < n
      ensures RowHolds(s, a, n, p, x, r) <==> x[r] == Dot(s, m[r], p, n)
    {
      DotUnit(s, a.inv[r], x, n, r);
    }
  }

  // Exactly when the inversion fails.

  ghost predicate AllZero<F, V>(s: Space<F, V>, p: seq<V>) {
    forall r :: 0 <= r < |p| ==> p[r] == s.vzero
  }

  /** Some non-zero p is mapped to zero. */
  ghost predicate Singular<F, V(!new)>(s: Space<F, V>, m: seq<seq<F>>, n: nat)
    requires Square(m, n)
  {
    exists p: seq<V> :: |p| == n && !AllZero(s, p) && IsProduct(s, m, n, seq(n, _ => s.vzero), p)
  }

  /** At some stage the pivot position and every one below it hold no one, yet a non-zero entry is there to swap in. */
  ghost predicate MissesPivot<F, V>(s: Space<F, V>, a: Pair<F>, n: nat, i: nat)
    requires IsPair(a, n) && i <= n
    decreases n - i
  {
    i < n &&
    var b := Pivot(s, a, n, i);
    if b.None? then exists r :: i <= r < n && a.m[r][i] != s.zero
    else MissesPivot(s, Stage(s, b.value, n, i), n, i + 1)
  }

  /** The vector that a matrix with unit columns below i and a zero column i maps to zero. */
  ghost function KernelVector<F, V>(s: Space<F, V>, m: seq<seq<F>>, n: nat, i: nat, v: V): (p: seq<V>)
    requires Square(m, n) && i < n
    ensures |p| == n
  {
    seq(n, q requires 0 <= q < n => if q < i then s.scale(m[q][i], v) else if q == i then v else s.vzero)
  }

  lemma KernelRow<F(!new), V(!new)>(s: Space<F, V>, a: Pair<F>, n: nat, i: nat, v: V, r: nat)
    requires Laws(s) && IsPair(a, n) && i < n && UnitColumns(s, a, n, i) && r < n
    requires r >= i ==> a.m[r][i] == s.zero
    ensures Dot(s, a.m[r], KernelVector(s, a.m, n, i, v), n) == s.vzero
  {
    var p := KernelVector(s, a.m, n, i, v);
    DotZeroTail(s, a.m[r], p, i + 1, n);
    DotUnit(s, a.m[r], p, i, r);
    ScaleZero(s, s.zero, v);
    XorZero(s.vzero, s.xor, s.scale(a.m[r][i], v));
    XorZero(s.vzero, s.xor, s.vzero);
  }

  lemma {:induction false} DotZero<F(!new), V(!new)>(s: Space<F, V>, ks: seq<F>, xs: seq<V>, n: nat)
    requires Laws(s) && n <= |ks| && n <= |xs| && AllZero(s, xs)
    ensures Dot(s, ks, xs, n) == s.vzero
  {
    DotZeroTail(s, ks, xs, 0, n);
  }

  /** The elimination fails on a system with only the zero solution exactly when it misses a pivot. */
  lemma {:induction false} FailureStage<F(!new), V(!new)>(s: Space<F, V>, a: Pair<F>, n: nat, i: nat, v: V)
    returns (p: seq<V>)
    requires FieldLaws(s) && IsPair(a, n) && i <= n && UnitColumns(s, a, n, i) && v != s.vzero
    ensures |p| == n
    ensures MissesPivot(s, a, n, i) ==> Eliminate(s, a, n, i).None?
    ensures Eliminate(s, a, n, i).None? && !MissesPivot(s, a, n, i) ==>
      !AllZero(s, p) && Solves(s, a, n, p, seq(n, _ => s.vzero))
    decreases n - i
  {
    p := seq(n, _ => s.vzero);
    if i < n {
      var x := p;
      var b := Pivot(s, a, n, i);
      if b.Some? {
        PivotStep(s, a, n, i);
        StageUnits(s, b.value, n, i);
        p := FailureStage(s, Stage(s, b.value, n, i), n, i + 1, v);
        PivotSolves(s, a, n, i, p, x);
        StageSolves(s, b.value, n, i, p, x);
      } else if !MissesPivot(s, a, n, i) {
        p := KernelVector(s, a.m, n, i, v);
        assert p[i] == v;
        forall r | 0 <= r < n
          ensures RowHolds(s, a, n, p, x, r)
        {
          KernelRow(s, a, n, i, v, r);
          DotZero(s, a.inv[r], x, n);
        }
      }
    }
  }

  /** The empty matrix is returned exactly for the singular matrices and those on which a pivot is missed. */
  lemma InverseFails<F(!new), V(!new)>(s: Space<F, V>, m: seq<seq<F>>, v: V)
    requires FieldLaws(s) && Square(m, |m|) && v != s.vzero
    ensures InverseOf(s, m).None? <==>
      Singular(s, m, |m|) || MissesPivot(s, Pair(m, Identity(s, |m|)), |m|, 0)
  {
    var n := |m|;
    var a := Pair(m, Identity(s, n));
    var x := seq(n, _ => s.vzero);
    var p := FailureStage(s, a, n, 0, v);
    if InverseOf(s, m).None? && !MissesPivot(s, a, n, 0) {
      forall r | 0 <= r < n
        ensures x[r] == Dot(s, m[r], p, n)
      {
        assert RowHolds(s, a, n, p, x, r);
        DotUnit(s, a.inv[r], x, n, r);
      }
      assert IsProduct(s, m, n, x, p);
    }
    if InverseOf(s, m).Some? && Singular(s, m, n) {
      var q: seq<V> :| |q| == n && !AllZero(s, q) && IsProduct(s, m, n, x, q);
      InverseSound(s, m, q, x);
      forall r | 0 <= r < n
        ensures q[r] == s.vzero
      {
        DotZero(s, InverseOf(s, m).value[r], x, n);
      }
      assert false;
    }
  }

  /** The failing family is not empty: with c neither zero nor one, this invertible matrix gives the empty result. */
  lemma MissedPivotExample<F(!new), V(!new)>(s: Space<F, V>, c: F)
    requires FieldLaws(s) && c != s.zero && c != s.one
    ensures var m := [[s.zero, c], [c, s.zero]];
      InverseOf(s, m).None? && !Singular(s, m, 2)
  {
    var m := [[s.zero, c], [c, s.zero]];
    assert FindOne(s, Pair(m, Identity(s, 2)), 2, 0, 1) == 2;
    var x := seq(2, _ => s.vzero);
    forall p: seq<V> | |p| == 2 && IsProduct(s, m, 2, x, p)
      ensures AllZero(s, p)
    {
      assert x[0] == Dot(s, m[0], p, 2) && x[1] == Dot(s, m[1], p, 2);
      var d := Pow(s, c, Tower(7) - 2);
      InverseLaw(s, c);
      TimesLaws(s, c, d, d);
      TwoTerms(s, s.zero, c, p);
      TwoTerms(s, c, s.zero, p);
      ScaleZero(s, c, p[0]);
      ScaleZero(s, c, p[1]);
      XorZero(s.vzero, s.xor, s.scale(c, p[0]));
      XorZero(s.vzero, s.xor, s.scale(c, p[1]));
      ScaleCancel(s, d, c, p[0], s.vzero);
      ScaleCancel(s, d, c, p[1], s.vzero);
    }
  }

  lemma TwoTerms<F(!new), V(!new)>(s: Space<F, V>, k: F, l: F, p: seq<V>)
    requires Laws(s) && |p| == 2
    ensures Dot(s, [k, l], p, 2) == s.xor(s.scale(k, p[0]), s.scale(l, p[1]))
  {
    assert Dot(s, [k, l], p, 1) == s.xor(Dot(s, [k, l], p, 0), s.scale(k, p[0]));
    XorZero(s.vzero, s.xor, s.scale(k, p[0]));
  }
}
