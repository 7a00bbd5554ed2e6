/** Values of polynomials, and what one level of sparse divisions does to them. */
module PolynomialValues {
  import opened Algebra
  import opened BasisConversion

  /** The value at x of the polynomial with these coefficients, the constant term first. */
  ghost function Poly<F, V>(s: Space<F, V>, x: F, f: seq<V>): V {
    if f == [] then s.vzero
    else s.xor(Poly(s, x, f[..|f| - 1]), s.scale(Pow(s, x, |f| - 1), f[|f| - 1]))
  }

  lemma {:induction false} PolyXor<F(!new), V(!new)>(s: Space<F, V>, x: F, f: seq<V>, g: seq<V>, h: seq<V>)
    requires Laws(s) && |f| == |g| == |h| && forall i :: 0 <= i < |f| ==> h[i] == s.xor(f[i], g[i])
    ensures Poly(s, x, h) == s.xor(Poly(s, x, f), Poly(s, x, g))
  {
    hide XorLaws;
    var n := |f|;
    if n == 0 {
      XorZero(s.vzero, s.xor, s.vzero);
    } else {
      PolyXor(s, x, f[..n - 1], g[..n - 1], h[..n - 1]);
      var k := Pow(s, x, n - 1);
      ScaleXor(s, k, f[n - 1], g[n - 1]);
      XorSwap(s.vzero, s.xor, Poly(s, x, f[..n - 1]), Poly(s, x, g[..n - 1]), s.scale(k, f[n - 1]),
        s.scale(k, g[n - 1]));
    }
  }

  /** The first m coefficients of x^e h(x). */
  ghost function ShiftedUp<V>(vzero: V, h: seq<V>, e: nat, m: nat): (r: seq<V>)
    ensures |r| == m
  {
    seq(m, i requires 0 <= i < m => Shifted(vzero, h, e, i))
  }

  lemma ShiftedUpInit<V>(vzero: V, h: seq<V>, e: nat, m: nat)
    requires m > 0
    ensures ShiftedUp(vzero, h, e, m)[..m - 1] == ShiftedUp(vzero, h, e, m - 1)
    ensures ShiftedUp(vzero, h, e, m)[m - 1] == Shifted(vzero, h, e, m - 1)
  {}

  /** Moving the coefficients up by e multiplies by x^e. */
  lemma {:induction false} PolyShifted<F(!new), V(!new)>(s: Space<F, V>, x: F, h: seq<V>, e: nat, m: nat)
    requires Laws(s)
    ensures m <= e ==> Poly(s, x, ShiftedUp(s.vzero, h, e, m)) == s.vzero
    ensures e < m <= e + |h| ==>
      Poly(s, x, ShiftedUp(s.vzero, h, e, m)) == s.scale(Pow(s, x, e), Poly(s, x, h[..m - e]))
    ensures m >= e + |h| ==> Poly(s, x, ShiftedUp(s.vzero, h, e, m)) == s.scale(Pow(s, x, e), Poly(s, x, h))
  {
    hide XorLaws, Pow, ShiftedUp;
    ScaleZero(s, Pow(s, x, e), s.vzero);
    if m > 0 {
      PolyShifted(s, x, h, e, m - 1);
      ShiftedUpInit(s.vzero, h, e, m);
      var a, k := Pow(s, x, e), Pow(s, x, m - 1);
      ScaleZero(s, k, s.vzero);
      XorZero(s.vzero, s.xor, Poly(s, x, ShiftedUp(s.vzero, h, e, m - 1)));
      if e < m <= e + |h| {
        ShiftedTerm(s, x, h, e, m);
      }
    }
    assert h[..|h|] == h;
    if h == [] {
      assert Poly(s, x, h) == s.vzero;
    }
  }

  lemma ShiftedTerm<F(!new), V(!new)>(s: Space<F, V>, x: F, h: seq<V>, e: nat, m: nat)
    requires Laws(s) && e < m <= e + |h|
    requires Poly(s, x, ShiftedUp(s.vzero, h, e, m - 1)) ==
      if m - 1 <= e then s.vzero else s.scale(Pow(s, x, e), Poly(s, x, h[..m - 1 - e]))
    ensures Poly(s, x, ShiftedUp(s.vzero, h, e, m)) == s.scale(Pow(s, x, e), Poly(s, x, h[..m - e]))
  {
    hide XorLaws, Pow, ShiftedUp;
    ShiftedUpInit(s.vzero, h, e, m);
    var a, b, v := Pow(s, x, e), Pow(s, x, m - 1 - e), h[m - 1 - e];
    PowPlus(s, x, e, m - 1 - e);
    ScalePlus(s, a, b, v);
    ScaleXor(s, a, Poly(s, x, h[..m - 1 - e]), s.scale(b, v));
    assert h[..m - e][..m - e - 1] == h[..m - 1 - e];
    if m - 1 == e {
      assert h[..0] == [];
      ScaleZero(s, a, s.vzero);
    }
  }

  /** The value of the divisor: x^n and the x^(n - d). */
  ghost function Divisor<F, V>(s: Space<F, V>, x: F, n: nat, ds: seq<nat>): F
    requires GoodOffsets(ds, n)
  {
    if ds == [] then Pow(s, x, n)
    else s.plus(Divisor(s, x, n, ds[..|ds| - 1]), Pow(s, x, n - ds[|ds| - 1]))
  }

  ghost function Product<F, V>(s: Space<F, V>, h: seq<V>, n: nat, ds: seq<nat>, m: nat): (r: seq<V>)
    requires GoodOffsets(ds, n)
    ensures |r| == m
  {
    seq(m, i requires 0 <= i < m => ProductAt(s.vzero, s.xor, h, n, ds, i))
  }

  /** The product with the divisor has the product of the values. */
  lemma {:induction false} PolyProduct<F(!new), V(!new)>(s: Space<F, V>, x: F, h: seq<V>, n: nat, ds: seq<nat>, m: nat)
    requires Laws(s) && GoodOffsets(ds, n) && m >= n + |h|
    ensures Poly(s, x, Product(s, h, n, ds, m)) == s.scale(Divisor(s, x, n, ds), Poly(s, x, h))
  {
    hide XorLaws, Pow, Poly;
    if ds == [] {
      assert Product(s, h, n, ds, m) == ShiftedUp(s.vzero, h, n, m);
      PolyShifted(s, x, h, n, m);
    } else {
      var init, d := ds[..|ds| - 1], ds[|ds| - 1];
      PolyProduct(s, x, h, n, init, m);
      PolyShifted(s, x, h, n - d, m);
      PolyXor(s, x, Product(s, h, n, init, m), ShiftedUp(s.vzero, h, n - d, m), Product(s, h, n, ds, m));
      ScalePlus(s, Divisor(s, x, n, init), Pow(s, x, n - d), Poly(s, x, h));
    }
  }

  /** One block: the value of what is multiplied out is that of the lower half plus divisor times upper half. */
  lemma BlockValue<F(!new), V(!new)>(s: Space<F, V>, x: F, v: seq<V>, n: nat, ds: seq<nat>)
    requires Laws(s) && |v| == 2 * n && GoodOffsets(ds, n)
    ensures Poly(s, x, Expanded(s.xor, v, n, ds)) ==
      s.xor(Poly(s, x, v[..n]), s.scale(Divisor(s, x, n, ds), Poly(s, x, v[n..])))
  {
    hide Laws, Pow, Poly, Divisor, Gather, ProductAt;
    var low, high := ShiftedUp(s.vzero, v[..n], 0, 2 * n), Product(s, v[n..], n, ds, 2 * n);
    forall i | 0 <= i < 2 * n
      ensures Expanded(s.xor, v, n, ds)[i] == s.xor(low[i], high[i])
    {
      ValueLaws(s);
      ExpandedIsProduct(s.vzero, s.xor, v, n, ds, i);
    }
    PolyXor(s, x, low, high, Expanded(s.xor, v, n, ds));
    PolyShifted(s, x, v[..n], 0, 2 * n);
    if n == 0 {
      assert low == [] && v[..n] == [];
    }
    PowNothing(s, x, Poly(s, x, v[..n]));
    PolyProduct(s, x, v[n..], n, ds, 2 * n);
  }

  lemma ValueLaws<F(!new), V(!new)>(s: Space<F, V>)
    requires Laws(s)
    ensures XorLaws(s.vzero, s.xor)
  {}

  lemma PowNothing<F(!new), V(!new)>(s: Space<F, V>, x: F, v: V)
    requires Laws(s)
    ensures s.scale(Pow(s, x, 0), v) == v
  {
    hide Laws;
    ScalePlus(s, s.one, s.one, v);
  }

  // Vectors whose lower and upper halves are remainder and quotient at every level from j on.

  /** The length of a vector of level l: u doubled l times. */
  function Size(u: nat, l: nat): (n: nat)
    ensures u >= 1 ==> n >= 1
  {
    if l == 0 then u else 2 * Size(u, l - 1)
  }

  ghost predicate GoodLevels(u: nat, offsets: nat -> seq<nat>) {
    u >= 1 && forall j: nat :: GoodOffsets(offsets(j), Size(u, j))
  }

  /** Up to level j the vector is a polynomial; above, the lower half plus the divisor times the upper half. */
  ghost function Mixed<F, V>(s: Space<F, V>, x: F, u: nat, offsets: nat -> seq<nat>, f: seq<V>, l: nat, j: nat): V
    requires GoodLevels(u, offsets) && |f| == Size(u, l)
  {
    if l <= j then Poly(s, x, f)
    else
      var n := Size(u, l - 1);
      s.xor(Mixed(s, x, u, offsets, f[..n], l - 1, j),
            s.scale(Divisor(s, x, n, offsets(l - 1)), Mixed(s, x, u, offsets, f[n..], l - 1, j)))
  }

  lemma {:induction false} LevelConcat<V>(xor: (V, V) -> V, u: nat, x: seq<V>, y: seq<V>, l: nat, j: nat, ds: seq<nat>)
    requires u >= 1 && |x| == Size(u, l) && l >= j + 1
    ensures ExpandLevel(xor, x + y, Size(u, j), ds) ==
      ExpandLevel(xor, x, Size(u, j), ds) + ExpandLevel(xor, y, Size(u, j), ds)
    decreases l
  {
    hide Expanded, ExpandLevel;
    var n := Size(u, j);
    if l == j + 1 {
      FirstBlock(xor, x, y, n, ds);
    } else {
      var h := Size(u, l - 1);
      assert x == x[..h] + x[h..] && x + y == x[..h] + (x[h..] + y);
      LevelConcat(xor, u, x[..h], x[h..] + y, l - 1, j, ds);
      LevelConcat(xor, u, x[h..], y, l - 1, j, ds);
      LevelConcat(xor, u, x[..h], x[h..], l - 1, j, ds);
    }
  }

  lemma FirstBlock<V>(xor: (V, V) -> V, x: seq<V>, y: seq<V>, n: nat, ds: seq<nat>)
    requires n >= 1 && |x| == 2 * n
    ensures ExpandLevel(xor, x + y, n, ds) == ExpandLevel(xor, x, n, ds) + ExpandLevel(xor, y, n, ds)
  {
    hide Expanded;
    OneBlock(xor, x, n, ds);
    assert (x + y)[..2 * n] == x && (x + y)[2 * n..] == y;
  }

  lemma {:induction false} SizeGrows(u: nat, l: nat, j: nat)
    requires l <= j && u >= 1
    ensures Size(u, l) <= Size(u, j) < 2 * Size(u, j)
    decreases j
  {
    if l < j {
      SizeGrows(u, l, j - 1);
    }
  }

  /** Multiplying out level j keeps the value: the vector is a polynomial one level further. */
  lemma {:induction false} LevelValue<F(!new), V(!new)>(
    s: Space<F, V>, x: F, u: nat, offsets: nat -> seq<nat>, f: seq<V>, l: nat, j: nat)
    requires Laws(s) && GoodLevels(u, offsets) && |f| == Size(u, l)
    ensures Mixed(s, x, u, offsets, f, l, j) ==
      Mixed(s, x, u, offsets, ExpandLevel(s.xor, f, Size(u, j), offsets(j)), l, j + 1)
    decreases l
  {
    hide Laws, Poly, Divisor, Expanded;
    var n, ds := Size(u, j), offsets(j);
    if l <= j {
      SizeGrows(u, l, j);
      LevelShort(s.xor, f, n, ds);
    } else if l == j + 1 {
      OneBlock(s.xor, f, n, ds);
      BlockValue(s, x, f, n, ds);
    } else {
      hide ExpandLevel;
      var h := Size(u, l - 1);
      var low, high := ExpandLevel(s.xor, f[..h], n, ds), ExpandLevel(s.xor, f[h..], n, ds);
      assert f == f[..h] + f[h..];
      LevelConcat(s.xor, u, f[..h], f[h..], l - 1, j, ds);
      assert (low + high)[..h] == low && (low + high)[h..] == high;
      LevelValue(s, x, u, offsets, f[..h], l - 1, j);
      LevelValue(s, x, u, offsets, f[h..], l - 1, j);
    }
  }

  lemma OneBlock<V>(xor: (V, V) -> V, f: seq<V>, n: nat, ds: seq<nat>)
    requires n >= 1 && |f| == 2 * n
    ensures ExpandLevel(xor, f, n, ds) == Expanded(xor, f, n, ds)
  {
    hide Expanded;
    assert f[..2 * n] == f && f[2 * n..] == [];
  }

  // Additive maps of the entries.

  ghost predicate Additive<A(!new), B>(map': A -> B, xorA: (A, A) -> A, xorB: (B, B) -> B) {
    forall a: A, b: A :: map'(xorA(a, b)) == xorB(map'(a), map'(b))
  }

  ghost function Mapped<A, B>(map': A -> B, f: seq<A>): (r: seq<B>)
    ensures |r| == |f|
  {
    seq(|f|, i requires 0 <= i < |f| => map'(f[i]))
  }

  lemma {:induction false} MappedGather<A(!new), B>(
    map': A -> B, xorA: (A, A) -> A, xorB: (B, B) -> B, f: seq<A>, i: nat, n: nat, ds: seq<nat>)
    requires Additive(map', xorA, xorB) && |f| == 2 * n && i < 2 * n
    ensures map'(Gather(xorA, f, i, n, ds)) == Gather(xorB, Mapped(map', f), i, n, ds)
  {
    if ds != [] {
      MappedGather(map', xorA, xorB, f, i, n, ds[..|ds| - 1]);
    }
  }

  /** A level can be multiplied out before or after the entries are mapped. */
  lemma {:induction false} MappedLevel<A(!new), B>(
    map': A -> B, xorA: (A, A) -> A, xorB: (B, B) -> B, f: seq<A>, n: nat, ds: seq<nat>)
    requires Additive(map', xorA, xorB) && n >= 1
    ensures Mapped(map', ExpandLevel(xorA, f, n, ds)) == ExpandLevel(xorB, Mapped(map', f), n, ds)
    decreases |f|
  {
    hide Gather, Additive;
    if |f| >= 2 * n {
      var first := f[..2 * n];
      forall i | 0 <= i < 2 * n
        ensures map'(Gather(xorA, first, i, n, ds)) == Gather(xorB, Mapped(map', first), i, n, ds)
      {
        MappedGather(map', xorA, xorB, first, i, n, ds);
      }
      assert Mapped(map', f)[..2 * n] == Mapped(map', first);
      assert Mapped(map', Expanded(xorA, first, n, ds)) == Expanded(xorB, Mapped(map', f)[..2 * n], n, ds);
      MappedLevel(map', xorA, xorB, f[2 * n..], n, ds);
      assert Mapped(map', f)[2 * n..] == Mapped(map', f[2 * n..]);
    }
  }
}
