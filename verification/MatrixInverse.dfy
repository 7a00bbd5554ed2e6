/** The matrix inversion on two arrays that are updated in place. */
module MatrixInverse {
  import opened Wrappers
  import opened Algebra
  import opened Gf128
  import opened Elimination

  /** The array holds the given n by n matrix. */
  ghost predicate Holds<F>(a: array2<F>, m: seq<seq<F>>, n: nat)
    reads a
  {
    && a.Length0 == n && a.Length1 == n && Square(m, n)
    && forall i, j :: 0 <= i < n && 0 <= j < n ==> a[i, j] == m[i][j]
  }

  method Swap<F>(a: array2<F>, n: nat, i: nat, j: nat, ghost m: seq<seq<F>>)
    requires Holds(a, m, n) && i < n && j < n && i != j
    modifies a
    ensures Holds(a, m[i := m[j]][j := m[i]], n)
  {
    for k := 0 to n
      invariant forall r, c :: 0 <= r < n && 0 <= c < n ==>
        a[r, c] == if c < k then m[i := m[j]][j := m[i]][r][c] else m[r][c]
    {
      a[i, k], a[j, k] := a[j, k], a[i, k];
    }
  }

  method Scale<F, V>(s: Space<F, V>, a: array2<F>, n: nat, i: nat, c: F, ghost m: seq<seq<F>>)
    requires Holds(a, m, n) && i < n
    modifies a
    ensures Holds(a, m[i := Scaled(s, m[i], c)], n)
  {
    for k := 0 to n
      invariant forall r, q :: 0 <= r < n && 0 <= q < n ==>
        a[r, q] == if r == i && q < k then Scaled(s, m[i], c)[q] else m[r][q]
    {
      a[i, k] := s.times(a[i, k], c);
    }
  }

  method Add<F, V>(s: Space<F, V>, a: array2<F>, n: nat, i: nat, j: nat, c: F, ghost m: seq<seq<F>>)
    requires Holds(a, m, n) && i < n && j < n && i != j
    modifies a
    ensures Holds(a, m[j := Added(s, m[j], m[i], c)], n)
  {
    for k := 0 to n
      invariant forall r, q :: 0 <= r < n && 0 <= q < n ==>
        a[r, q] == if r == j && q < k then Added(s, m[j], m[i], c)[q] else m[r][q]
    {
      a[j, k] := s.plus(a[j, k], s.times(a[i, k], c));
    }
  }

  /** Looks for a row to swap in when position (i, i) is zero; only entries equal to one are accepted. */
  method FindPivot<F(==, !new), V(!new)>(
    s: Space<F, V>, mtx: array2<F>, inv: array2<F>, n: nat, i: nat, ghost a: Pair<F>)
    returns (ok: bool)
    requires mtx != inv && IsPair(a, n) && Holds(mtx, a.m, n) && Holds(inv, a.inv, n) && i < n
    requires s.one != s.zero
    modifies mtx, inv
    ensures ok <==> Pivot(s, a, n, i).Some?
    ensures ok ==> var b := Pivot(s, a, n, i).value;
      Holds(mtx, b.m, n) && Holds(inv, b.inv, n) && b.m[i][i] != s.zero
  {
    if mtx[i, i] == s.zero {
      var j := i + 1;
      while j < n
        invariant i + 1 <= j <= n
        invariant FindOne(s, a, n, i, i + 1) == FindOne(s, a, n, i, j)
      {
        if mtx[j, i] == s.one {
          Swap(mtx, n, i, j, a.m);
          Swap(inv, n, i, j, a.inv);
          break;
        }
        j := j + 1;
      }
    }
    ok := mtx[i, i] != s.zero;
  }

  /** Zeroes column i in every other row. */
  method ClearRows<F(!new), V(!new)>(s: Space<F, V>, mtx: array2<F>, inv: array2<F>, n: nat, i: nat, ghost a: Pair<F>)
    requires mtx != inv && IsPair(a, n) && Holds(mtx, a.m, n) && Holds(inv, a.inv, n) && i < n
    modifies mtx, inv
    ensures var b := Clear(s, a, n, i, n); Holds(mtx, b.m, n) && Holds(inv, b.inv, n)
  {
    for j := 0 to n
      invariant var b := Clear(s, a, n, i, j); Holds(mtx, b.m, n) && Holds(inv, b.inv, n)
    {
      ghost var b := Clear(s, a, n, i, j);
      if j != i {
        var mji := mtx[j, i];
        Add(s, mtx, n, i, j, mji, b.m);
        Add(s, inv, n, i, j, mji, b.inv);
      }
    }
  }

  /** Inverts a copy of a square matrix; None is the empty matrix of the source. */
  method Invert<F(==, !new), V(!new)>(s: Space<F, V>, source: array2<F>, ghost m: seq<seq<F>>)
    returns (r: Option<array2<F>>)
    requires Square(m, |m|) && Holds(source, m, |m|) && Laws(s) && s.one != s.zero
    ensures r.None? <==> InverseOf(s, m).None?
    ensures r.Some? ==>
      fresh(r.value) && Square(InverseOf(s, m).value, |m|) && Holds(r.value, InverseOf(s, m).value, |m|)
  {
    hide Laws, Clear, ScaleRow, Pivot, Eliminate;
    var n := source.Length0;
    var mtx := new F[n, n]((i, j) requires 0 <= i < n && 0 <= j < n reads source => source[i, j]);
    var inv := new F[n, n]((i, j) => if i == j then s.one else s.zero);
    ghost var a := Pair(m, Identity(s, n));
    for i := 0 to n
      invariant IsPair(a, n) && Holds(mtx, a.m, n) && Holds(inv, a.inv, n)
      invariant Eliminate(s, a, n, i) == InverseOf(s, m)
    {
      NextStage(s, a, n, i);
      var ok := FindPivot(s, mtx, inv, n, i, a);
      if !ok {
        return None;
      }
      ghost var b := Pivot(s, a, n, i).value;
      var c := Inverse(s, mtx[i, i]);
      Scale(s, mtx, n, i, c, b.m);
      Scale(s, inv, n, i, c, b.inv);
      ScaledPair(s, b, n, i, c);
      ClearRows(s, mtx, inv, n, i, ScaleRow(s, b, n, i, c));
      a := Stage(s, b, n, i);
    }
    NextStage(s, a, n, n);
    return Some(inv);
  }

  /** One step of the elimination. */
  lemma NextStage<F, V>(s: Space<F, V>, a: Pair<F>, n: nat, i: nat)
    requires IsPair(a, n) && i <= n
    ensures i == n ==> Eliminate(s, a, n, i) == Some(a.inv)
    ensures i < n ==> match Pivot(s, a, n, i)
      case None => Eliminate(s, a, n, i).None?
      case Some(b) => Eliminate(s, a, n, i) == Eliminate(s, Stage(s, b, n, i), n, i + 1)
  {
    hide Pivot, Clear, ScaleRow;
  }

  lemma ScaledPair<F, V>(s: Space<F, V>, b: Pair<F>, n: nat, i: nat, c: F)
    requires IsPair(b, n) && i < n
    ensures ScaleRow(s, b, n, i, c) == Pair(b.m[i := Scaled(s, b.m[i], c)], b.inv[i := Scaled(s, b.inv[i], c)])
  {
  }
}
