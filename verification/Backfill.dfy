/** Assigning the output once the matrix is triangulated, with powers of the dense hash as dense coefficients. */
module Backfill {
  import opened Wrappers
  import opened Algebra
  import opened SparseMatrix
  import opened Peeling
  import opened Gf128
  import opened Elimination
  import opened MatrixInverse
  import opened Okvs

  /** What the source draws from its generator: arbitrary values. */
  datatype Randomness<F, V> = Randomness(sparse: seq<V>, dense: seq<V>, gapRows: seq<seq<F>>, gapValues: seq<V>) {
    ghost predicate Fits(sparseSize: nat, denseSize: nat) {
      |sparse| == sparseSize && |dense| == denseSize && Square(gapRows, denseSize) && |gapValues| == denseSize
    }
  }

  /** The powers x, x^2, ... of a dense hash. */
  ghost function Powers<F, V>(s: Space<F, V>, x: F, n: nat): (ks: seq<F>)
    ensures |ks| == n
  {
    seq(n, j requires 0 <= j < n => Pow(s, x, j + 1))
  }

  ghost function AllPowers<F, V>(s: Space<F, V>, dense: seq<F>, n: nat): (coefs: seq<seq<F>>)
    ensures |coefs| == |dense| && forall r :: 0 <= r < |coefs| ==> coefs[r] == Powers(s, dense[r], n)
  {
    seq(|dense|, r requires 0 <= r < |dense| => Powers(s, dense[r], n))
  }

  ghost function PlusRow<F, V>(s: Space<F, V>, a: seq<F>, b: seq<F>): (r: seq<F>)
    requires |a| == |b|
    ensures |r| == |a|
  {
    seq(|a|, k requires 0 <= k < |a| => s.plus(a[k], b[k]))
  }

  /** Writes the powers of e to row i. */
  method SetPowers<F(!new), V(!new)>(s: Space<F, V>, a: array2<F>, n: nat, i: nat, e: F, ghost m: seq<seq<F>>)
    requires Laws(s) && Holds(a, m, n) && i < n
    modifies a
    ensures Holds(a, m[i := Powers(s, e, n)], n)
  {
    hide Laws;
    PowOne(s, e);
    var ej := e;
    a[i, 0] := e;
    for j := 1 to n
      invariant ej == Pow(s, e, j)
      invariant forall r, q :: 0 <= r < n && 0 <= q < n ==>
        a[r, q] == if r == i && q < j then Pow(s, e, q + 1) else m[r][q]
    {
      ej := s.times(ej, e);
      a[i, j] := ej;
    }
  }

  /** Adds the powers of e to row i. */
  method AddPowers<F(!new), V(!new)>(s: Space<F, V>, a: array2<F>, n: nat, i: nat, e: F, ghost m: seq<seq<F>>)
    requires Laws(s) && Holds(a, m, n) && i < n
    modifies a
    ensures Holds(a, m[i := PlusRow(s, m[i], Powers(s, e, n))], n)
  {
    hide Laws;
    PowOne(s, e);
    var ek := e;
    a[i, 0] := s.plus(a[i, 0], ek);
    for k := 1 to n
      invariant ek == Pow(s, e, k)
      invariant forall r, q :: 0 <= r < n && 0 <= q < n ==>
        a[r, q] == if r == i && q < k then s.plus(m[i][q], Pow(s, e, q + 1)) else m[r][q]
    {
      ek := s.times(ek, e);
      a[i, k] := s.plus(a[i, k], ek);
    }
  }

  /** The first n combined dense coefficients of row r. */
  ghost function GapRow<F, V>(s: Space<F, V>, dense: seq<F>, r: nat, added: seq<nat>, d: nat, n: nat): (ks: seq<F>)
    requires r < |dense| && InRange(added, |dense|) && n <= d
    ensures |ks| == n
  {
    seq(n, k requires 0 <= k < n => Combined(s, AllPowers(s, dense, d), r, added, k))
  }

  lemma GapRowStart<F, V>(s: Space<F, V>, dense: seq<F>, r: nat, d: nat, n: nat)
    requires r < |dense| && n <= d
    ensures GapRow(s, dense, r, [], d, n) == Powers(s, dense[r], n)
  {
  }

  lemma GapRowStep<F, V>(s: Space<F, V>, dense: seq<F>, r: nat, added: seq<nat>, d: nat, n: nat)
    requires r < |dense| && InRange(added, |dense|) && n <= d && added != []
    ensures var init, q := added[..|added| - 1], added[|added| - 1];
      GapRow(s, dense, r, added, d, n) == PlusRow(s, GapRow(s, dense, r, init, d, n), Powers(s, dense[q], n))
  {
  }

  /** Row i of the gap system: combined coefficients on the left, gathered values on the right. */
  method BuildGapRow<F(!new), V(!new)>(
    s: Space<F, V>, dense: seq<F>, x: seq<V>, r: nat, added: seq<nat>, a: array2<F>, xx: array<V>,
    n: nat, i: nat, ghost d: nat, ghost m: seq<seq<F>>)
    requires Laws(s) && |x| == |dense| && r < |dense| && InRange(added, |dense|) && n <= d
    requires Holds(a, m, n) && i < n == xx.Length
    modifies a, xx
    ensures Holds(a, m[i := GapRow(s, dense, r, added, d, n)], n)
    ensures xx[..] == old(xx[..])[i := Gathered(s, x, r, added)]
  {
    hide Laws, Combined;
    SetPowers(s, a, n, i, dense[r], m);
    GapRowStart(s, dense, r, d, n);
    xx[i] := x[r];
    assert added[..0] == [];
    for q := 0 to |added|
      invariant InRange(added[..q], |dense|)
      invariant Holds(a, m[i := GapRow(s, dense, r, added[..q], d, n)], n)
      invariant xx[..] == old(xx[..])[i := Gathered(s, x, r, added[..q])]
    {
      var j := added[q];
      assert added[..q + 1][..q] == added[..q];
      xx[i] := s.xor(xx[i], x[j]);
      AddPowers(s, a, n, i, dense[j], m[i := GapRow(s, dense, r, added[..q], d, n)]);
      GapRowStep(s, dense, r, added[..q + 1], d, n);
    }
    assert added[..|added|] == added;
  }

  /** The gap rows and their lists of added rows refer to existing rows. */
  ghost predicate GapsFit(gapRows: seq<(nat, nat)>, fcinv: seq<seq<nat>>, rows: nat) {
    |fcinv| == |gapRows| && forall i :: 0 <= i < |gapRows| ==> gapRows[i].0 < rows && InRange(fcinv[i], rows)
  }

  /** The number of unknowns: one for each gap row, or every dense column when the encoding is randomised. */
  function Unknowns<F, V>(gaps: nat, d: nat, rand: Option<Randomness<F, V>>): nat {
    if rand.Some? then d else gaps
  }

  /** The left-hand side E' of the gap system, completed by random rows. */
  ghost function GapMatrix<F, V>(
    s: Space<F, V>, dense: seq<F>, gapRows: seq<(nat, nat)>, fcinv: seq<seq<nat>>, d: nat, n: nat,
    rand: Option<Randomness<F, V>>): (m: seq<seq<F>>)
    requires GapsFit(gapRows, fcinv, |dense|) && |gapRows| <= n <= d
    requires n > |gapRows| ==> rand.Some? && n == d && Square(rand.value.gapRows, d)
    ensures Square(m, n)
  {
    seq(n, i requires 0 <= i < n =>
      if i < |gapRows| then GapRow(s, dense, gapRows[i].0, fcinv[i], d, n) else rand.value.gapRows[i])
  }

  ghost function GapValues<F, V>(
    s: Space<F, V>, x: seq<V>, gapRows: seq<(nat, nat)>, fcinv: seq<seq<nat>>, n: nat,
    rand: Option<Randomness<F, V>>): (v: seq<V>)
    requires GapsFit(gapRows, fcinv, |x|) && |gapRows| <= n
    requires n > |gapRows| ==> rand.Some? && |rand.value.gapValues| == n
    ensures |v| == n
  {
    seq(n, i requires 0 <= i < n =>
      if i < |gapRows| then Gathered(s, x, gapRows[i].0, fcinv[i]) else rand.value.gapValues[i])
  }

  method BuildGapSystem<F(!new), V(!new)>(
    s: Space<F, V>, dense: seq<F>, x: seq<V>, gapRows: seq<(nat, nat)>, fcinv: seq<seq<nat>>, d: nat, n: nat,
    rand: Option<Randomness<F, V>>) returns (a: array2<F>, xx: array<V>)
    requires Laws(s) && |x| == |dense| && GapsFit(gapRows, fcinv, |dense|) && |gapRows| <= n <= d
    requires n > |gapRows| ==> rand.Some? && n == d && rand.value.Fits(|rand.value.sparse|, d)
    ensures fresh(a) && fresh(xx) && Holds(a, GapMatrix(s, dense, gapRows, fcinv, d, n, rand), n)
    ensures xx[..] == GapValues(s, x, gapRows, fcinv, n, rand)
  {
    hide Laws, GapRow, Gathered;
    a := new F[n, n]((i, j) => s.zero);
    xx := new V[n](_ => s.vzero);
    ghost var m := seq(n, i => seq(n, j => s.zero));
    var g := |gapRows|;
    ghost var goal, values := GapMatrix(s, dense, gapRows, fcinv, d, n, rand), GapValues(s, x, gapRows, fcinv, n, rand);
    for i := 0 to g
      invariant Holds(a, m, n) && forall r :: 0 <= r < i ==> m[r] == goal[r]
      invariant xx.Length == n && forall r :: 0 <= r < i ==> xx[r] == values[r]
    {
      BuildGapRow(s, dense, x, gapRows[i].0, fcinv[i], a, xx, n, i, d, m);
      m := m[i := GapRow(s, dense, gapRows[i].0, fcinv[i], d, n)];
    }
    for i := g to n
      invariant Holds(a, m, n) && forall r :: 0 <= r < i ==> m[r] == goal[r]
      invariant xx.Length == n && forall r :: 0 <= r < i ==> xx[r] == values[r]
    {
      for j := 0 to n
        invariant xx.Length == n && forall r :: 0 <= r < i ==> xx[r] == values[r]
        invariant forall r, q :: 0 <= r < n && 0 <= q < n ==>
          a[r, q] == if r == i && q < j then rand.value.gapRows[i][q] else m[r][q]
      {
        a[i, j] := rand.value.gapRows[i][j];
      }
      xx[i] := rand.value.gapValues[i];
      m := m[i := rand.value.gapRows[i]];
    }
    assert m == goal;
  }

  /** The dense part of p gives every gap row its gathered value. */
  ghost predicate GapsSolved<F, V>(
    s: Space<F, V>, coefs: seq<seq<F>>, x: seq<V>, gapRows: seq<(nat, nat)>, fcinv: seq<seq<nat>>, d: nat, p2: seq<V>)
    requires |x| == |coefs| && GapsFit(gapRows, fcinv, |coefs|) && |p2| == d
    requires forall r :: 0 <= r < |coefs| ==> |coefs[r]| == d
  {
    forall i :: 0 <= i < |gapRows| ==>
      Dot(s, CombinedRow(s, coefs, gapRows[i].0, fcinv[i], d), p2, d) == Gathered(s, x, gapRows[i].0, fcinv[i])
  }

  /** The product of the inverted system and its right-hand side solves the gaps. */
  lemma ProductSolvesGaps<F(!new), V(!new)>(
    s: Space<F, V>, dense: seq<F>, x: seq<V>, gapRows: seq<(nat, nat)>, fcinv: seq<seq<nat>>, d: nat, n: nat,
    rand: Option<Randomness<F, V>>, inv: seq<seq<F>>, p2: seq<V>)
    requires FieldLaws(s) && |x| == |dense| && GapsFit(gapRows, fcinv, |dense|) && |gapRows| <= n <= d == |p2|
    requires n > |gapRows| ==> rand.Some? && n == d && rand.value.Fits(|rand.value.sparse|, d)
    requires InverseOf(s, GapMatrix(s, dense, gapRows, fcinv, d, n, rand)) == Some(inv) && Square(inv, n)
    requires IsProduct(s, inv, n, p2[..n], GapValues(s, x, gapRows, fcinv, n, rand))
    requires forall j :: n <= j < d ==> p2[j] == s.vzero
    ensures GapsSolved(s, AllPowers(s, dense, d), x, gapRows, fcinv, d, p2)
  {
    hide Laws, Gathered, Combined, Eliminate;
    var m, xx := GapMatrix(s, dense, gapRows, fcinv, d, n, rand), GapValues(s, x, gapRows, fcinv, n, rand);
    InverseSound(s, m, p2[..n], xx);
    var coefs := AllPowers(s, dense, d);
    forall i | 0 <= i < |gapRows|
      ensures Dot(s, CombinedRow(s, coefs, gapRows[i].0, fcinv[i], d), p2, d) == Gathered(s, x, gapRows[i].0, fcinv[i])
    {
      var ks := CombinedRow(s, coefs, gapRows[i].0, fcinv[i], d);
      DotZeroTail(s, ks, p2, n, d);
      DotAgree(s, ks, m[i], p2, p2[..n], n);
    }
  }

  /**
   * What the gap rows do not determine of the dense part: without a draw it is zero, with one the drawn values if there
   * is no gap, and otherwise what gives every drawn row its drawn value.
   */
  ghost predicate DenseDrawn<F, V>(s: Space<F, V>, gaps: nat, d: nat, rand: Option<Randomness<F, V>>, p2: seq<V>) {
    && |p2| == d && (rand.Some? ==> rand.value.Fits(|rand.value.sparse|, d))
    && match rand
      case None => forall j :: gaps <= j < d ==> p2[j] == s.vzero
      case Some(draw) =>
        if gaps == 0 then p2 == draw.dense
        else forall i :: gaps <= i < d ==> Dot(s, draw.gapRows[i], p2, d) == draw.gapValues[i]
  }

  /** The product also gives every drawn row its drawn value. */
  lemma ProductMeetsDraws<F(!new), V(!new)>(
    s: Space<F, V>, dense: seq<F>, x: seq<V>, gapRows: seq<(nat, nat)>, fcinv: seq<seq<nat>>, d: nat, n: nat,
    rand: Option<Randomness<F, V>>, inv: seq<seq<F>>, p2: seq<V>)
    requires FieldLaws(s) && |x| == |dense| && GapsFit(gapRows, fcinv, |dense|) && 0 < |gapRows| <= n <= d == |p2|
    requires n == Unknowns(|gapRows|, d, rand) && (rand.Some? ==> rand.value.Fits(|rand.value.sparse|, d))
    requires InverseOf(s, GapMatrix(s, dense, gapRows, fcinv, d, n, rand)) == Some(inv) && Square(inv, n)
    requires IsProduct(s, inv, n, p2[..n], GapValues(s, x, gapRows, fcinv, n, rand))
    requires forall j :: n <= j < d ==> p2[j] == s.vzero
    ensures DenseDrawn(s, |gapRows|, d, rand, p2)
  {
    hide Laws, Gathered, Combined, Eliminate;
    if rand.Some? {
      var m, xx := GapMatrix(s, dense, gapRows, fcinv, d, n, rand), GapValues(s, x, gapRows, fcinv, n, rand);
      InverseSound(s, m, p2[..n], xx);
      assert p2[..n] == p2;
      forall i | |gapRows| <= i < d
        ensures Dot(s, rand.value.gapRows[i], p2, d) == rand.value.gapValues[i]
      {
        assert m[i] == rand.value.gapRows[i] && xx[i] == rand.value.gapValues[i];
      }
    }
  }

  /** Adds the product of the matrix and the vector to the zeroed dense part. */
  method Multiply<F(!new), V(!new)>(
    s: Space<F, V>, e: array2<F>, xx: array<V>, p: array<V>, sparse: nat, n: nat, ghost inv: seq<seq<F>>)
    requires Laws(s) && Holds(e, inv, n) && xx.Length == n && sparse + n <= p.Length && xx != p
    requires forall q :: sparse <= q < p.Length ==> p[q] == s.vzero
    modifies p
    ensures p[..sparse] == old(p[..sparse])
    ensures IsProduct(s, inv, n, p[sparse..sparse + n], xx[..])
    ensures forall q :: sparse + n <= q < p.Length ==> p[q] == s.vzero
  {
    hide Laws;
    for i := 0 to n
      invariant p[..sparse] == old(p[..sparse])
      invariant forall q :: sparse <= q < sparse + i ==> p[q] == Dot(s, inv[q - sparse], xx[..], n)
      invariant forall q :: sparse + i <= q < p.Length ==> p[q] == s.vzero
    {
      for j := 0 to n
        invariant p[..sparse] == old(p[..sparse])
        invariant forall q :: sparse <= q < sparse + i ==> p[q] == Dot(s, inv[q - sparse], xx[..], n)
        invariant p[sparse + i] == Dot(s, inv[i], xx[..], j)
        invariant forall q :: sparse + i < q < p.Length ==> p[q] == s.vzero
      {
        p[sparse + i] := s.xor(p[sparse + i], s.scale(e[i, j], xx[j]));
      }
    }
  }

  /** Solves the gap system for the dense part; false is the throw on a singular (or unlucky) matrix. */
  method SolveDense<F(==, !new), V(!new)>(
    s: Space<F, V>, dense: seq<F>, x: seq<V>, gapRows: seq<(nat, nat)>, fcinv: seq<seq<nat>>, sparse: nat, d: nat,
    rand: Option<Randomness<F, V>>, p: array<V>) returns (ok: bool)
    requires FieldLaws(s) && |x| == |dense| && GapsFit(gapRows, fcinv, |dense|) && 0 < |gapRows| <= d
    requires p.Length == sparse + d && forall j :: sparse <= j < p.Length ==> p[j] == s.vzero
    requires rand.Some? ==> rand.value.Fits(sparse, d)
    modifies p
    ensures p[..sparse] == old(p[..sparse])
    ensures ok <==> InverseOf(s, GapMatrix(s, dense, gapRows, fcinv, d, Unknowns(|gapRows|, d, rand), rand)).Some?
    ensures ok ==> GapsSolved(s, AllPowers(s, dense, d), x, gapRows, fcinv, d, p[sparse..])
    ensures ok ==> DenseDrawn(s, |gapRows|, d, rand, p[sparse..])
  {
    hide FieldLaws, Laws, GapMatrix, GapValues, GapsSolved, Eliminate;
    FieldIsRing(s);
    var n := if rand.Some? then d else |gapRows|;
    var a, xx := BuildGapSystem(s, dense, x, gapRows, fcinv, d, n, rand);
    ghost var m := GapMatrix(s, dense, gapRows, fcinv, d, n, rand);
    var inverse := Invert(s, a, m);
    if inverse.None? {
      return false;
    }
    var e := inverse.value;
    ghost var inv := InverseOf(s, m).value;
    Multiply(s, e, xx, p, sparse, n, inv);
    assert p[sparse..][..n] == p[sparse..sparse + n];
    ProductSolvesGaps(s, dense, x, gapRows, fcinv, d, n, rand, inv, p[sparse..]);
    ProductMeetsDraws(s, dense, x, gapRows, fcinv, d, n, rand, inv, p[sparse..]);
    return true;
  }

  lemma FieldIsRing<F(!new), V(!new)>(s: Space<F, V>)
    requires FieldLaws(s)
    ensures Laws(s) && s.one != s.zero
  {
  }

  // Back substitution over the main rows, the last one first.

  /** After k steps: the last k main rows decode to their values, the other main columns are still zero. */
  ghost predicate Substituted<F, V>(s: Space<F, V>, sys: System<F>, t: Triangle, p: seq<V>, x: seq<V>, k: nat)
    requires sys.Valid() && |p| == sys.sparse + sys.denseSize && |x| == |sys.rows|
    requires Triangular(sys.rows, t.mainRows, t.mainCols) && k <= |t.mainRows|
    requires InRange(t.mainCols, sys.sparse)
  {
    && (forall j :: |t.mainRows| - k <= j < |t.mainRows| ==> sys.Value(s, p, t.mainRows[j]) == x[t.mainRows[j]])
    && (forall j :: 0 <= j < |t.mainRows| - k ==> p[t.mainCols[j]] == s.vzero)
  }

  lemma SubstituteStep<F(!new), V(!new)>(
    s: Space<F, V>, sys: System<F>, t: Triangle, p: seq<V>, x: seq<V>, k: nat, y: V)
    requires Laws(s) && sys.Valid() && |p| == sys.sparse + sys.denseSize && |x| == |sys.rows|
    requires Triangular(sys.rows, t.mainRows, t.mainCols) && k < |t.mainRows|
    requires Distinct(t.mainCols) && InRange(t.mainCols, sys.sparse)
    requires Substituted(s, sys, t, p, x, k)
    requires var j := |t.mainRows| - 1 - k; y == s.xor(x[t.mainRows[j]], sys.Value(s, p, t.mainRows[j]))
    ensures Substituted(s, sys, t, p[t.mainCols[|t.mainRows| - 1 - k] := y], x, k + 1)
  {
    hide Laws;
    var m := |t.mainRows|;
    var j := m - 1 - k;
    var c := t.mainCols[j];
    SolveRow(s, sys, p, t.mainRows[j], c, x[t.mainRows[j]], y);
    forall i | j < i < m
      ensures sys.Value(s, p[c := y], t.mainRows[i]) == x[t.mainRows[i]]
    {
      KeepRow(s, sys, p, t.mainRows[i], c, y);
    }
  }

  /** The value that remains to be written for a row: its value with the row's current value xored in. */
  method Missing<F(!new), V(!new)>(
    s: Space<F, V>, row: seq<nat>, e: F, x: V, p: array<V>, sparse: nat, d: nat, doDense: bool) returns (y: V)
    requires Laws(s) && InRange(row, sparse) && p.Length == sparse + d && d >= 1
    requires !doDense ==> forall q :: sparse <= q < p.Length ==> p[q] == s.vzero
    ensures y == s.xor(x, RowValue(s, row, Powers(s, e, d), p[..], sparse))
  {
    hide XorLaws;
    y := x;
    XorZero(s.vzero, s.xor, x);
    if |row| == 3 {
      y := s.xor(y, p[row[0]]);
      y := s.xor(y, p[row[1]]);
      y := s.xor(y, p[row[2]]);
      SparseThree(s, row, p[..], x);
    } else {
      for j := 0 to |row|
        invariant y == s.xor(x, SparseSum(s, row, p[..], j))
      {
        XorAssoc(s.vzero, s.xor, x, SparseSum(s, row, p[..], j), p[row[j]]);
        y := s.xor(y, p[row[j]]);
      }
    }
    ghost var a, ks, p2 := y, Powers(s, e, d), p[..][sparse..];
    if doDense {
      PowOne(s, e);
      var ek := e;
      XorZero(s.vzero, s.xor, a);
      XorZero(s.vzero, s.xor, s.scale(e, p[sparse]));
      y := s.xor(y, s.scale(ek, p[sparse]));
      assert Dot(s, ks, p2, 1) == s.xor(Dot(s, ks, p2, 0), s.scale(ks[0], p2[0]));
      for i := 1 to d
        invariant ek == Pow(s, e, i)
        invariant y == s.xor(a, Dot(s, ks, p2, i))
      {
        ek := s.times(ek, e);
        XorAssoc(s.vzero, s.xor, a, Dot(s, ks, p2, i), s.scale(ek, p[sparse + i]));
        y := s.xor(y, s.scale(ek, p[sparse + i]));
      }
    } else {
      DotZero(s, ks, p2, d);
      XorZero(s.vzero, s.xor, a);
    }
    XorAssoc(s.vzero, s.xor, x, SparseSum(s, row, p[..], |row|), Dot(s, ks, p2, d));
  }

  lemma SparseThree<F(!new), V(!new)>(s: Space<F, V>, row: seq<nat>, p: seq<V>, x: V)
    requires Laws(s) && |row| == 3 && InRange(row, |p|)
    ensures s.xor(s.xor(s.xor(x, p[row[0]]), p[row[1]]), p[row[2]]) == s.xor(x, SparseSum(s, row, p, 3))
  {
    hide XorLaws;
    var a, b, c := p[row[0]], p[row[1]], p[row[2]];
    assert SparseSum(s, row, p, 1) == s.xor(SparseSum(s, row, p, 0), a);
    assert SparseSum(s, row, p, 2) == s.xor(SparseSum(s, row, p, 1), b);
    XorZero(s.vzero, s.xor, a);
    XorAssoc(s.vzero, s.xor, x, a, b);
    XorAssoc(s.vzero, s.xor, x, s.xor(a, b), c);
  }
}
