/** Inversion in the block field: of one element by powers, and of a matrix by elimination. */
module Gf128 {
  import opened Algebra
  import opened Words

  /** x to the number of non-zero elements of a field with 2^128 elements. */
  ghost function Order<F, V>(s: Space<F, V>, x: F): F {
    Pow(s, x, Tower(7) - 1)
  }

  /** The laws of the field with 2^128 elements that the inversion relies on. */
  ghost predicate FieldLaws<F(!new), V(!new)>(s: Space<F, V>) {
    Laws(s) && s.zero != s.one && forall x: F :: x != s.zero ==> Order(s, x) == s.one
  }

  lemma {:induction false} PowPow<F(!new), V(!new)>(s: Space<F, V>, x: F, d: nat, e: nat)
    requires Laws(s)
    ensures Pow(s, Pow(s, x, d), e) == Pow(s, x, d * e)
  {
    if e > 0 {
      PowPow(s, x, d, e - 1);
      PowPlus(s, x, d * (e - 1), d);
      assert d * (e - 1) + d == d * e;
    }
  }

  /** One round: from exponents p-1 and p-2 to exponents p^2-1 and p^2-2, where b is the p-th power of a. */
  lemma RoundExponents<F(!new), V(!new)>(s: Space<F, V>, x: F, a: F, b: F, p: nat, q: nat)
    requires Laws(s) && p >= 2 && q == p * p
    requires a == Pow(s, x, p - 1) && b == Pow(s, a, p)
    ensures q >= 2 && b == Pow(s, x, q - p)
    ensures s.times(a, b) == Pow(s, x, q - 1)
    ensures s.times(Pow(s, x, p - 2), b) == Pow(s, x, q - 2)
  {
    PowPow(s, x, p - 1, p);
    assert (p - 1) * p == q - p;
    assert p * p >= 2 * p;
    PowPlus(s, x, p - 1, q - p);
    PowPlus(s, x, p - 2, q - p);
  }

  /** 2^(2^i), the size of the subfield that round i starts from. */
  function Tower(i: nat): (r: nat)
    ensures r >= 2
  {
    if i == 0 then 2 else Tower(i - 1) * Tower(i - 1)
  }

  lemma {:induction false} TowerIsPow2(i: nat)
    ensures Tower(i) == Pow2(Pow2(i))
  {
    if i == 0 {
      assert Pow2(1) == 2 * Pow2(0);
    } else {
      TowerIsPow2(i - 1);
      Pow2Plus(Pow2(i - 1), Pow2(i - 1));
      assert Pow2(i) == Pow2(i - 1) + Pow2(i - 1);
    }
  }

  /** The exponent 2^128. */
  lemma TowerSeven()
    ensures Tower(7) == Pow2(128)
  {
    TowerIsPow2(7);
    assert Pow2(7) == 128;
  }

  lemma Round<F(!new), V(!new)>(s: Space<F, V>, x: F, a: F, b: F, i: nat)
    requires Laws(s) && a == Pow(s, x, Tower(i) - 1) && b == Pow(s, a, Pow2(Pow2(i)))
    ensures s.times(a, b) == Pow(s, x, Tower(i + 1) - 1)
    ensures s.times(Pow(s, x, Tower(i) - 2), b) == Pow(s, x, Tower(i + 1) - 2)
    ensures i == 0 ==> b == Pow(s, x, Tower(i + 1) - 2)
    ensures Pow2(i + 1) == 2 * Pow2(i)
  {
    hide Laws;
    TowerIsPow2(i);
    RoundExponents(s, x, a, b, Tower(i), Tower(i + 1));
  }

  lemma SquareStep<F(!new), V(!new)>(s: Space<F, V>, a: F, j: nat)
    requires Laws(s)
    ensures s.times(Pow(s, a, Pow2(j)), Pow(s, a, Pow2(j))) == Pow(s, a, Pow2(j + 1))
  {
    PowPlus(s, a, Pow2(j), Pow2(j));
  }

  lemma RoundStart<F(!new), V(!new)>(s: Space<F, V>, x: F)
    requires Laws(s)
    ensures Pow2(0) == 1 && Pow(s, x, Pow2(0)) == x && Pow(s, x, Tower(0) - 1) == x
  {
    PowOne(s, x);
  }

  /** The scalar inversion: seven rounds of repeated squaring. */
  method Inverse<F(!new), V(!new)>(s: Space<F, V>, x: F) returns (result: F)
    requires Laws(s)
    ensures result == Pow(s, x, Tower(7) - 2)
  {
    hide Laws, Tower, Pow2, Pow;
    var a := x;
    result := s.zero;
    RoundStart(s, x);
    var i, reps := 0, 1;
    while i <= 6
      invariant 0 <= i <= 7 && reps == Pow2(i)
      invariant a == Pow(s, x, Tower(i) - 1)
      invariant i > 0 ==> result == Pow(s, x, Tower(i) - 2)
    {
      var b := a;
      var j := 0;
      RoundStart(s, a);
      while j < reps
        invariant 0 <= j <= reps
        invariant b == Pow(s, a, Pow2(j))
      {
        SquareStep(s, a, j);
        b := s.times(b, b);
        j := j + 1;
      }
      Round(s, x, a, b, i);
      a := s.times(a, b);
      if i == 0 {
        result := b;
      } else {
        result := s.times(result, b);
      }
      i := i + 1;
      reps := 2 * reps;
    }
  }

  lemma PowOne<F(!new), V(!new)>(s: Space<F, V>, x: F)
    requires Laws(s)
    ensures Pow(s, x, 1) == x
  {
    TimesLaws(s, x, s.one, x);
    assert Pow(s, x, 1) == s.times(Pow(s, x, 0), x);
  }

  /** In a field, that power is the inverse. */
  lemma InverseLaw<F(!new), V(!new)>(s: Space<F, V>, x: F)
    requires FieldLaws(s) && x != s.zero
    ensures s.times(x, Pow(s, x, Tower(7) - 2)) == s.one
  {
    var e := Tower(7) - 2;
    assert Order(s, x) == s.one;
    assert Pow(s, x, e + 1) == s.times(Pow(s, x, e), x);
    TimesLaws(s, x, Pow(s, x, e), x);
  }
}
