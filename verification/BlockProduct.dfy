/** Block multiplication is multiplication of polynomials over GF(2), reduced by the modulus. */
module BlockProduct {
  import opened BlockField

  /** A polynomial over GF(2) by its coefficients, the constant one first. */
  type Poly = seq<bool>

  /** Coefficient k of the product of a and the first n terms of b: the parity of the pairs of terms that meet there. */
  function Coefficient(a: Block, b: Block, k: nat, n: nat): bool
    requires n <= BITS
  {
    n > 0 && (Coefficient(a, b, k, n - 1) != (b[n - 1] && n - 1 <= k < n - 1 + BITS && a[k - (n - 1)]))
  }

  function PartialProduct(a: Block, b: Block, n: nat): (c: Poly)
    requires n <= BITS
    ensures |c| == 2 * BITS
  {
    seq(2 * BITS, k requires 0 <= k < 2 * BITS => Coefficient(a, b, k, n))
  }

  /** The product of two polynomials, not reduced. */
  function Product(a: Block, b: Block): Poly {
    PartialProduct(a, b, BITS)
  }

  /** What a polynomial is modulo the modulus: the sum of the reduced powers of x that it contains. */
  function Reduce(c: Poly): Block {
    if c == [] then Zero()
    else Xor(Reduce(c[..|c| - 1]), Masked(Shift(Unit(0), |c| - 1), c[|c| - 1]))
  }

  function AddPoly(c: Poly, d: Poly): Poly
    requires |c| == |d|
  {
    seq(|c|, k requires 0 <= k < |c| => c[k] != d[k])
  }

  /** Reduction is linear. */
  lemma {:induction false} ReduceAdds(c: Poly, d: Poly)
    requires |c| == |d|
    ensures Reduce(AddPoly(c, d)) == Xor(Reduce(c), Reduce(d))
  {
    hide Xor, Shift;
    XorGroup(Zero(), Zero(), Zero());
    if c != [] {
      var n := |c| - 1;
      var top := Shift(Unit(0), n);
      ReduceAdds(c[..n], d[..n]);
      assert AddPoly(c, d)[..n] == AddPoly(c[..n], d[..n]);
      XorGroup(top, top, top);
      XorPairs(Reduce(c[..n]), Masked(top, c[n]), Reduce(d[..n]), Masked(top, d[n]));
    }
  }

  /** x^n a, in len coefficients. */
  function Shifted(a: Block, n: nat, len: nat): (c: Poly)
    ensures |c| == len
  {
    seq(len, k requires 0 <= k < len => n <= k < n + BITS && a[k - n])
  }

  lemma {:induction false} ShiftXor(a: Block, b: Block, n: nat)
    ensures Shift(Xor(a, b), n) == Xor(Shift(a, n), Shift(b, n)) && Shift(Zero(), n) == Zero()
  {
    hide Xor, Twice;
    TwiceXor(Zero(), Zero());
    if n > 0 {
      ShiftXor(a, b, n - 1);
      TwiceXor(Shift(a, n - 1), Shift(b, n - 1));
    }
  }

  lemma {:induction false} ShiftShift(a: Block, m: nat, n: nat)
    ensures Shift(Shift(a, m), n) == Shift(a, m + n)
  {
    if n > 0 {
      ShiftShift(a, m, n - 1);
    }
  }

  /** Reducing x^n a, coefficient by coefficient. */
  lemma {:induction false} ReduceShifted(a: Block, n: nat, len: nat)
    ensures Reduce(Shifted(a, n, len)) == Shift(Low(a,
      if len < n then 0 else if len < n + BITS then len - n else BITS), n)
  {
    hide Xor, Low, Twice, Unit;
    LowEnds(a);
    ShiftXor(Zero(), Zero(), n);
    if len > 0 {
      ReduceShifted(a, n, len - 1);
      assert Shifted(a, n, len)[..len - 1] == Shifted(a, n, len - 1);
      var before := Reduce(Shifted(a, n, len - 1));
      XorGroup(before, before, before);
      if n < len <= n + BITS {
        var m := len - 1 - n;
        LowStep(a, m);
        ShiftXor(Low(a, m), Masked(Unit(m), a[m]), n);
        ShiftOne(m);
        ShiftShift(Unit(0), m, n);
        ShiftXor(Zero(), Zero(), n);
      }
    }
  }

  /** A block is reduced already. */
  lemma ReduceBlock(a: Block)
    ensures Reduce(a) == a
  {
    hide Low;
    ReduceShifted(a, 0, BITS);
    LowEnds(a);
    assert Shifted(a, 0, BITS) == a;
  }

  /** The modulus x^128 + x^7 + x^2 + x + 1, times x^j. */
  function ModulusTimes(j: nat): (c: Poly) {
    seq(j + BITS + 1, k requires 0 <= k < j + BITS + 1 => k >= j && (k - j == BITS || ModulusBit(k - j)))
  }

  /** The low part of the modulus. */
  function Tail(): Block {
    seq(BITS, i requires 0 <= i < BITS => ModulusBit(i))
  }

  lemma TopReduced()
    ensures Shift(Unit(0), BITS) == Tail()
  {
    ShiftOne(BITS - 1);
    assert Shift(Unit(0), BITS) == Twice(Shift(Unit(0), BITS - 1)) == Twice(Unit(BITS - 1));
    assert Twice(Unit(BITS - 1)) == Tail();
  }

  /** Multiples of the modulus reduce to zero. */
  lemma ReduceModulus(j: nat)
    ensures Reduce(ModulusTimes(j)) == Zero()
  {
    hide Xor, Low, Shift, Unit;
    var c := ModulusTimes(j);
    assert c[..j + BITS] == Shifted(Tail(), j, j + BITS);
    ReduceShifted(Tail(), j, j + BITS);
    LowEnds(Tail());
    TopReduced();
    ShiftShift(Unit(0), BITS, j);
    XorGroup(Shift(Tail(), j), Zero(), Zero());
  }

  lemma {:induction false} PartialReduced(a: Block, b: Block, n: nat)
    requires n <= BITS
    ensures Reduce(PartialProduct(a, b, n)) == Times(a, Low(b, n))
  {
    hide Xor, Low, Shift, Unit, MulFrom, Reduce;
    if n == 0 {
      LowEnds(b);
      MulZero(a);
      NothingReduced(a, b);
    } else {
      var m := n - 1;
      PartialReduced(a, b, m);
      LowStep(b, m);
      MulXorRight(a, Low(b, m), Masked(Unit(m), b[m]), 0);
      UnitCommutes(a, m);
      MulZero(a);
      var term := if b[m] then Shifted(a, m, 2 * BITS) else Shifted(Zero(), m, 2 * BITS);
      assert PartialProduct(a, b, n) == AddPoly(PartialProduct(a, b, m), term);
      ReduceAdds(PartialProduct(a, b, m), term);
      ReduceShifted(a, m, 2 * BITS);
      ReduceShifted(Zero(), m, 2 * BITS);
      LowEnds(a);
      LowEnds(Zero());
      ShiftXor(Zero(), Zero(), m);
    }
  }

  lemma NothingReduced(a: Block, b: Block)
    ensures Reduce(PartialProduct(a, b, 0)) == Zero()
  {
    hide Low, Reduce;
    assert PartialProduct(a, b, 0) == Shifted(Zero(), 0, 2 * BITS);
    ReduceShifted(Zero(), 0, 2 * BITS);
    LowEnds(Zero());
  }

  /** The product of two blocks is their product as polynomials, reduced by the modulus. */
  lemma TimesIsProduct(a: Block, b: Block)
    ensures Times(a, b) == Reduce(Product(a, b))
  {
    hide Low, Times, Reduce, PartialProduct;
    PartialReduced(a, b, BITS);
    LowEnds(b);
  }
}
