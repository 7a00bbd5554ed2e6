/** Blocks under xor, the coefficient ring that multiplies them, and finite sums. */
module Algebra {

  /** The operations of the value helper: coefficients F (a characteristic-two ring) acting on values V. */
  datatype Space<!F, !V> = Space(
    zero: F, one: F, plus: (F, F) -> F, times: (F, F) -> F,
    vzero: V, xor: (V, V) -> V, scale: (F, V) -> V)

  /** An inert marker: the laws below fire only where a lemma mentions it. */
  ghost predicate At<A, B, C>(a: A, b: B, c: C) { true }

  ghost predicate XorLaws<V(!new)>(vzero: V, xor: (V, V) -> V) {
    forall a: V, b: V, c: V {:trigger At(a, b, c)} ::
      && xor(a, b) == xor(b, a)
      && xor(xor(a, b), c) == xor(a, xor(b, c))
      && xor(a, vzero) == a
      && xor(a, a) == vzero
  }

  ghost predicate RingLaws<F(!new)>(zero: F, one: F, plus: (F, F) -> F, times: (F, F) -> F) {
    && XorLaws(zero, plus)
    && forall k: F, l: F, m: F {:trigger At(k, l, m)} ::
      && times(k, l) == times(l, k)
      && times(times(k, l), m) == times(k, times(l, m))
      && times(k, one) == k
      && times(k, plus(l, m)) == plus(times(k, l), times(k, m))
  }

  ghost predicate Laws<F(!new), V(!new)>(s: Space<F, V>) {
    && RingLaws(s.zero, s.one, s.plus, s.times)
    && XorLaws(s.vzero, s.xor)
    && (forall k: F, l: F, a: V {:trigger At(k, l, a)} ::
      && s.scale(s.plus(k, l), a) == s.xor(s.scale(k, a), s.scale(l, a))
      && s.scale(s.times(k, l), a) == s.scale(k, s.scale(l, a))
      && s.scale(s.one, a) == a)
    && (forall k: F, a: V, b: V {:trigger At(k, a, b)} ::
      s.scale(k, s.xor(a, b)) == s.xor(s.scale(k, a), s.scale(k, b)))
  }

  /** The ring acting on itself. */
  function Regular<F, V>(s: Space<F, V>): Space<F, F> {
    Space(s.zero, s.one, s.plus, s.times, s.zero, s.plus, s.times)
  }

  /** A ring acts on itself lawfully. */
  lemma RegularFromRing<F(!new)>(t: Space<F, F>)
    requires RingLaws(t.zero, t.one, t.plus, t.times)
    requires t.vzero == t.zero && t.xor == t.plus && t.scale == t.times
    ensures Laws(t)
  {
    forall k: F, l: F, a: F
      ensures t.scale(t.plus(k, l), a) == t.xor(t.scale(k, a), t.scale(l, a))
    {
      assert At(a, k, l);
      assert At(t.plus(k, l), a, a);
      assert At(k, a, a);
      assert At(l, a, a);
    }
    forall k: F, l: F, a: F
      ensures t.scale(t.times(k, l), a) == t.scale(k, t.scale(l, a))
    {
      assert At(k, l, a);
    }
    forall a: F
      ensures t.scale(t.one, a) == a
    {
      assert At(t.one, a, a);
      assert At(a, t.one, a);
    }
    forall k: F, l: F, a: F
      ensures t.scale(k, t.xor(l, a)) == t.xor(t.scale(k, l), t.scale(k, a))
    {
      assert At(k, l, a);
    }
  }

  lemma RegularLaws<F(!new), V(!new)>(s: Space<F, V>)
    requires Laws(s)
    ensures Laws(Regular(s))
  {
    RegularFromRing(Regular(s));
  }

  // Laws of xor, one instance at a time.

  lemma XorComm<V(!new)>(z: V, op: (V, V) -> V, a: V, b: V)
    requires XorLaws(z, op)
    ensures op(a, b) == op(b, a)
  {
    assert At(a, b, a);
  }

  lemma XorAssoc<V(!new)>(z: V, op: (V, V) -> V, a: V, b: V, c: V)
    requires XorLaws(z, op)
    ensures op(op(a, b), c) == op(a, op(b, c))
  {
    assert At(a, b, c);
  }

  lemma XorZero<V(!new)>(z: V, op: (V, V) -> V, a: V)
    requires XorLaws(z, op)
    ensures op(a, z) == a && op(z, a) == a && op(a, a) == z
  {
    assert At(a, z, a);
  }

  lemma XorSwap<V(!new)>(z: V, op: (V, V) -> V, a: V, b: V, c: V, d: V)
    requires XorLaws(z, op)
    ensures op(op(a, b), op(c, d)) == op(op(a, c), op(b, d))
  {
    XorAssoc(z, op, a, b, op(c, d));
    XorAssoc(z, op, b, c, d);
    XorComm(z, op, b, c);
    XorAssoc(z, op, c, b, d);
    XorAssoc(z, op, a, c, op(b, d));
  }

  lemma XorCancel<V(!new)>(z: V, op: (V, V) -> V, a: V, b: V)
    requires XorLaws(z, op)
    ensures op(op(a, b), b) == a
  {
    XorAssoc(z, op, a, b, b);
    XorZero(z, op, a);
    XorZero(z, op, b);
  }

  lemma XorMove<V(!new)>(z: V, op: (V, V) -> V, a: V, b: V, c: V)
    requires XorLaws(z, op)
    ensures op(op(a, b), c) == op(op(a, c), b)
    ensures op(a, b) == c <==> a == op(c, b)
  {
    XorAssoc(z, op, a, b, c);
    XorAssoc(z, op, a, c, b);
    XorComm(z, op, b, c);
    XorCancel(z, op, a, b);
    XorCancel(z, op, c, b);
  }

  lemma ScaleXor<F(!new), V(!new)>(s: Space<F, V>, k: F, a: V, b: V)
    requires Laws(s)
    ensures s.scale(k, s.xor(a, b)) == s.xor(s.scale(k, a), s.scale(k, b))
  {
    assert At(k, a, b);
  }

  lemma ScalePlus<F(!new), V(!new)>(s: Space<F, V>, k: F, l: F, a: V)
    requires Laws(s)
    ensures s.scale(s.plus(k, l), a) == s.xor(s.scale(k, a), s.scale(l, a))
    ensures s.scale(s.times(k, l), a) == s.scale(k, s.scale(l, a))
    ensures s.scale(s.one, a) == a
  {
    assert At(k, l, a);
  }

  lemma ScaleZero<F(!new), V(!new)>(s: Space<F, V>, k: F, a: V)
    requires Laws(s)
    ensures s.scale(k, s.vzero) == s.vzero
    ensures s.scale(s.zero, a) == s.vzero
  {
    ScaleXor(s, k, a, a);
    XorZero(s.vzero, s.xor, a);
    XorZero(s.vzero, s.xor, s.scale(k, a));
    ScalePlus(s, k, k, a);
    XorZero(s.zero, s.plus, k);
  }

  lemma TimesLaws<F(!new), V(!new)>(s: Space<F, V>, k: F, l: F, m: F)
    requires Laws(s)
    ensures s.times(k, l) == s.times(l, k)
    ensures s.times(s.times(k, l), m) == s.times(k, s.times(l, m))
    ensures s.times(k, s.one) == k && s.times(s.one, k) == k
    ensures s.times(k, s.plus(l, m)) == s.plus(s.times(k, l), s.times(k, m))
  {
    assert At(k, l, m);
    assert At(k, s.one, m);
  }

  // Vectors.

  function XorVec<V>(xor: (V, V) -> V, a: seq<V>, b: seq<V>): (r: seq<V>)
    requires |a| == |b|
    ensures |r| == |a|
  {
    seq(|a|, j requires 0 <= j < |a| => xor(a[j], b[j]))
  }

  function ScaleVec<F, V>(s: Space<F, V>, d: F, a: seq<V>): (r: seq<V>)
    ensures |r| == |a|
  {
    seq(|a|, i requires 0 <= i < |a| => s.scale(d, a[i]))
  }

  // Inner products of the first n coefficients and values.

  function Dot<F, V>(s: Space<F, V>, ks: seq<F>, xs: seq<V>, n: nat): V
    requires n <= |ks| && n <= |xs|
  {
    if n == 0 then s.vzero else s.xor(Dot(s, ks, xs, n - 1), s.scale(ks[n - 1], xs[n - 1]))
  }

  lemma {:induction false} DotAgree<F, V>(s: Space<F, V>, ks: seq<F>, ls: seq<F>, xs: seq<V>, ys: seq<V>, n: nat)
    requires n <= |ks| && n <= |xs| && n <= |ls| && n <= |ys|
    requires forall i :: 0 <= i < n ==> ks[i] == ls[i] && xs[i] == ys[i]
    ensures Dot(s, ks, xs, n) == Dot(s, ls, ys, n)
  {
    if n > 0 {
      DotAgree(s, ks, ls, xs, ys, n - 1);
    }
  }

  lemma {:induction false} DotPlus<F(!new), V(!new)>(
    s: Space<F, V>, ks: seq<F>, ls: seq<F>, ms: seq<F>, xs: seq<V>, n: nat)
    requires Laws(s)
    requires n <= |ks| && n <= |xs| && n <= |ls| && n <= |ms|
    requires forall i :: 0 <= i < n ==> ms[i] == s.plus(ks[i], ls[i])
    ensures Dot(s, ms, xs, n) == s.xor(Dot(s, ks, xs, n), Dot(s, ls, xs, n))
  {
    if n == 0 {
      XorZero(s.vzero, s.xor, s.vzero);
    } else {
      DotPlus(s, ks, ls, ms, xs, n - 1);
      ScalePlus(s, ks[n - 1], ls[n - 1], xs[n - 1]);
      XorSwap(s.vzero, s.xor, Dot(s, ks, xs, n - 1), Dot(s, ls, xs, n - 1),
              s.scale(ks[n - 1], xs[n - 1]), s.scale(ls[n - 1], xs[n - 1]));
    }
  }

  lemma {:induction false} DotTimes<F(!new), V(!new)>(
    s: Space<F, V>, c: F, ks: seq<F>, ms: seq<F>, xs: seq<V>, n: nat)
    requires Laws(s)
    requires n <= |ks| && n <= |xs| && n <= |ms|
    requires forall i :: 0 <= i < n ==> ms[i] == s.times(c, ks[i])
    ensures Dot(s, ms, xs, n) == s.scale(c, Dot(s, ks, xs, n))
  {
    if n == 0 {
      ScaleZero(s, c, s.vzero);
    } else {
      DotTimes(s, c, ks, ms, xs, n - 1);
      ScalePlus(s, c, ks[n - 1], xs[n - 1]);
      ScaleXor(s, c, Dot(s, ks, xs, n - 1), s.scale(ks[n - 1], xs[n - 1]));
    }
  }

  lemma {:induction false} DotXor<F(!new), V(!new)>(
    s: Space<F, V>, ks: seq<F>, xs: seq<V>, ys: seq<V>, zs: seq<V>, n: nat)
    requires Laws(s)
    requires n <= |ks| && n <= |xs| && n <= |ys| && n <= |zs|
    requires forall i :: 0 <= i < n ==> zs[i] == s.xor(xs[i], ys[i])
    ensures Dot(s, ks, zs, n) == s.xor(Dot(s, ks, xs, n), Dot(s, ks, ys, n))
  {
    if n == 0 {
      XorZero(s.vzero, s.xor, s.vzero);
    } else {
      DotXor(s, ks, xs, ys, zs, n - 1);
      ScaleXor(s, ks[n - 1], xs[n - 1], ys[n - 1]);
      XorSwap(s.vzero, s.xor, Dot(s, ks, xs, n - 1), Dot(s, ks, ys, n - 1),
              s.scale(ks[n - 1], xs[n - 1]), s.scale(ks[n - 1], ys[n - 1]));
    }
  }

  /** The row with a single one at i selects the i-th value. */
  lemma {:induction false} DotUnit<F(!new), V(!new)>(s: Space<F, V>, ks: seq<F>, xs: seq<V>, n: nat, i: nat)
    requires Laws(s)
    requires n <= |ks| && n <= |xs|
    requires forall j :: 0 <= j < n ==> ks[j] == if j == i then s.one else s.zero
    ensures Dot(s, ks, xs, n) == if i < n then xs[i] else s.vzero
  {
    if n > 0 {
      DotUnit(s, ks, xs, n - 1, i);
      ScalePlus(s, s.one, s.one, xs[n - 1]);
      ScaleZero(s, s.one, xs[n - 1]);
      XorZero(s.vzero, s.xor, Dot(s, ks, xs, n - 1));
      XorZero(s.vzero, s.xor, xs[n - 1]);
    }
  }

  lemma {:induction false} DotZeroTail<F(!new), V(!new)>(s: Space<F, V>, ks: seq<F>, xs: seq<V>, m: nat, n: nat)
    requires Laws(s)
    requires m <= n <= |ks| && n <= |xs|
    requires forall j :: m <= j < n ==> xs[j] == s.vzero
    ensures Dot(s, ks, xs, n) == Dot(s, ks, xs, m)
  {
    if m < n {
      DotZeroTail(s, ks, xs, m, n - 1);
      ScaleZero(s, ks[n - 1], s.vzero);
      XorZero(s.vzero, s.xor, Dot(s, ks, xs, n - 1));
    }
  }

  // Powers in the coefficient ring.

  function Pow<F, V>(s: Space<F, V>, x: F, e: nat): F {
    if e == 0 then s.one else s.times(Pow(s, x, e - 1), x)
  }

  lemma {:induction false} PowPlus<F(!new), V(!new)>(s: Space<F, V>, x: F, d: nat, e: nat)
    requires Laws(s)
    ensures Pow(s, x, d + e) == s.times(Pow(s, x, d), Pow(s, x, e))
  {
    if e == 0 {
      TimesLaws(s, Pow(s, x, d), s.one, s.one);
    } else {
      PowPlus(s, x, d, e - 1);
      TimesLaws(s, Pow(s, x, d), Pow(s, x, e - 1), x);
    }
  }

  // Sums over a sparse row, and over a set of positions.

  ghost predicate InRange(row: seq<nat>, size: nat) {
    forall j :: 0 <= j < |row| ==> row[j] < size
  }

  ghost predicate Distinct<T>(row: seq<T>) {
    forall i, j :: 0 <= i < j < |row| ==> row[i] != row[j]
  }

  function Entries<T>(row: seq<T>): set<T> {
    set x | x in row
  }

  function SparseSum<F, V>(s: Space<F, V>, row: seq<nat>, p: seq<V>, n: nat): V
    requires n <= |row|
    requires InRange(row, |p|)
  {
    if n == 0 then s.vzero else s.xor(SparseSum(s, row, p, n - 1), p[row[n - 1]])
  }

  ghost function MaskSum<F, V>(s: Space<F, V>, mask: set<nat>, p: seq<V>, n: nat): V
    requires n <= |p|
  {
    if n == 0 then s.vzero
    else s.xor(MaskSum(s, mask, p, n - 1), if n - 1 in mask then p[n - 1] else s.vzero)
  }

  /** Symmetric difference: the support of the xor of two 0/1 rows. */
  function SymDiff<T>(a: set<T>, b: set<T>): set<T> {
    (a - b) + (b - a)
  }

  lemma {:induction false} MaskSumSymDiff<F(!new), V(!new)>(s: Space<F, V>, a: set<nat>, b: set<nat>, p: seq<V>, n: nat)
    requires Laws(s)
    requires n <= |p|
    ensures MaskSum(s, SymDiff(a, b), p, n) == s.xor(MaskSum(s, a, p, n), MaskSum(s, b, p, n))
  {
    if n == 0 {
      XorZero(s.vzero, s.xor, s.vzero);
    } else {
      MaskSumSymDiff(s, a, b, p, n - 1);
      var x := if n - 1 in a then p[n - 1] else s.vzero;
      var y := if n - 1 in b then p[n - 1] else s.vzero;
      XorZero(s.vzero, s.xor, p[n - 1]);
      XorZero(s.vzero, s.xor, s.vzero);
      XorSwap(s.vzero, s.xor, MaskSum(s, a, p, n - 1), MaskSum(s, b, p, n - 1), x, y);
    }
  }

  lemma {:induction false} MaskSumAgree<F, V>(s: Space<F, V>, a: set<nat>, p: seq<V>, q: seq<V>, n: nat)
    requires n <= |p| && n <= |q|
    requires forall c :: c in a && c < n ==> p[c] == q[c]
    ensures MaskSum(s, a, p, n) == MaskSum(s, a, q, n)
  {
    if n > 0 {
      MaskSumAgree(s, a, p, q, n - 1);
    }
  }

  /** A set whose values are all zero sums to zero. */
  lemma {:induction false} MaskSumZero<F(!new), V(!new)>(s: Space<F, V>, a: set<nat>, p: seq<V>, n: nat)
    requires Laws(s)
    requires n <= |p|
    requires forall c :: c in a && c < n ==> p[c] == s.vzero
    ensures MaskSum(s, a, p, n) == s.vzero
  {
    XorZero(s.vzero, s.xor, s.vzero);
    if n > 0 {
      MaskSumZero(s, a, p, n - 1);
    }
  }

  lemma {:induction false} MaskSumSingle<F(!new), V(!new)>(s: Space<F, V>, c: nat, p: seq<V>, n: nat)
    requires Laws(s)
    requires n <= |p|
    ensures MaskSum(s, {c}, p, n) == if c < n then p[c] else s.vzero
  {
    XorZero(s.vzero, s.xor, s.vzero);
    if n > 0 {
      MaskSumSingle(s, c, p, n - 1);
      XorZero(s.vzero, s.xor, if c < n then p[c] else s.vzero);
    }
  }

  /** A row without repeated entries sums like the set of its entries. */
  lemma {:induction false} SparseIsMask<F(!new), V(!new)>(s: Space<F, V>, row: seq<nat>, p: seq<V>, n: nat)
    requires Laws(s)
    requires n <= |row| && Distinct(row) && InRange(row, |p|)
    ensures SparseSum(s, row, p, n) == MaskSum(s, Entries(row[..n]), p, |p|)
  {
    if n == 0 {
      MaskSumZero(s, {}, p, |p|);
      assert Entries(row[..0]) == {};
    } else {
      SparseIsMask(s, row, p, n - 1);
      var c := row[n - 1];
      assert row[..n] == row[..n - 1] + [c];
      assert Entries(row[..n]) == SymDiff(Entries(row[..n - 1]), {c});
      MaskSumSymDiff(s, Entries(row[..n - 1]), {c}, p, |p|);
      MaskSumSingle(s, c, p, |p|);
    }
  }
}
