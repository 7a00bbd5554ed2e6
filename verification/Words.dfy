/** Powers of two, the widths of machine words and the bits of a number. */
module Words {
  function Pow2(n: nat): (r: nat)
    ensures r >= 1
  {
    if n == 0 then 1 else 2 * Pow2(n - 1)
  }

  lemma {:induction false} Pow2Plus(m: nat, n: nat)
    ensures Pow2(m + n) == Pow2(m) * Pow2(n)
  {
    if n > 0 {
      Pow2Plus(m, n - 1);
      assert Pow2(m) * Pow2(n) == 2 * (Pow2(m) * Pow2(n - 1));
    }
  }

  lemma {:induction false} Pow2Grows(m: nat, n: nat)
    requires m < n
    ensures 2 * Pow2(m) <= Pow2(n)
  {
    if m < n - 1 {
      Pow2Grows(m, n - 1);
    }
  }

  /** x is a value of an unsigned word of n bits. */
  predicate Word(n: nat, x: int) {
    0 <= x < Pow2(n)
  }

  /** What an unsigned word of n bits keeps of x. */
  function Wrap(n: nat, x: int): nat {
    x % Pow2(n)
  }

  function LeadingZeros(n: nat, x: nat): nat {
    if n == 0 || x >= Pow2(n - 1) then 0 else 1 + LeadingZeros(n - 1, x)
  }

  lemma {:induction false} LeadingZerosBound(n: nat, x: nat)
    requires 0 < x < Pow2(n)
    ensures LeadingZeros(n, x) < n
    ensures Pow2(n - 1 - LeadingZeros(n, x)) <= x < 2 * Pow2(n - 1 - LeadingZeros(n, x))
  {
    if x < Pow2(n - 1) {
      LeadingZerosBound(n - 1, x);
    }
  }

  /** Shifting out the leading zeros moves the highest set bit to the top of the word. */
  lemma Normalizes(n: nat, x: nat)
    requires 0 < x < Pow2(n)
    ensures LeadingZeros(n, x) < n
    ensures Pow2(n - 1) <= x * Pow2(LeadingZeros(n, x)) < Pow2(n)
  {
    var z := LeadingZeros(n, x);
    LeadingZerosBound(n, x);
    Pow2Plus(n - 1 - z, z);
    Between(Pow2(n - 1 - z), x, Pow2(z));
  }

  lemma Between(low: nat, x: nat, f: nat)
    requires low <= x < 2 * low && f > 0
    ensures low * f <= x * f < 2 * (low * f)
  {
    assert (x - low) * f >= 0;
    assert (2 * low - x) * f > 0;
  }

  /** The bitwise and. */
  function And(x: nat, y: nat): nat {
    if x == 0 || y == 0 then 0 else (x % 2) * (y % 2) + 2 * And(x / 2, y / 2)
  }

  lemma {:induction false} AndSelf(x: nat)
    ensures And(x, x) == x
  {
    if x > 0 {
      AndSelf(x / 2);
    }
  }

  lemma AndZero(x: nat)
    ensures And(x, 0) == 0 && And(0, x) == 0
  {}

  lemma {:induction false} AndOnes(n: nat, x: nat)
    requires x < Pow2(n)
    ensures And(x, Pow2(n) - 1) == x
  {
    if n > 0 && x > 0 {
      assert (Pow2(n) - 1) / 2 == Pow2(n - 1) - 1 && (Pow2(n) - 1) % 2 == 1;
      AndOnes(n - 1, x / 2);
    }
  }

  /** The bitwise exclusive or. */
  function Xor(x: nat, y: nat): nat {
    if x == 0 then y else if y == 0 then x else (x + y) % 2 + 2 * Xor(x / 2, y / 2)
  }

  lemma LastBit(b: nat, r: nat)
    requires b < 2
    ensures (b + 2 * r) % 2 == b && (b + 2 * r) / 2 == r
  {}

  lemma XorUnfold(x: nat, y: nat)
    ensures Xor(x, y) == if x == 0 then y else if y == 0 then x else (x + y) % 2 + 2 * Xor(x / 2, y / 2)
  {}

  lemma XorBits(x: nat, y: nat)
    ensures Xor(x, y) % 2 == (x + y) % 2 && Xor(x, y) / 2 == Xor(x / 2, y / 2)
  {
    hide Xor;
    XorUnfold(x, y);
    if x == 0 || y == 0 {
      XorUnfold(x / 2, y / 2);
    } else {
      LastBit((x + y) % 2, Xor(x / 2, y / 2));
    }
  }

  lemma {:induction false} XorTwice(x: nat, y: nat)
    ensures Xor(Xor(x, y), y) == x
  {
    if x > 0 || y > 0 {
      var z := Xor(x, y);
      XorBits(x, y);
      XorBits(z, y);
      XorTwice(x / 2, y / 2);
      assert Xor(z, y) / 2 == x / 2 && Xor(z, y) % 2 == x % 2;
    }
  }

  lemma {:induction false} XorBelow(n: nat, x: nat, y: nat)
    requires x < Pow2(n) && y < Pow2(n)
    ensures Xor(x, y) < Pow2(n)
  {
    if n > 0 {
      XorBits(x, y);
      XorBelow(n - 1, x / 2, y / 2);
    }
  }

  lemma {:induction false} XorOrder(x: nat, y: nat)
    ensures Xor(x, y) == Xor(y, x)
  {
    if x > 0 && y > 0 {
      XorOrder(x / 2, y / 2);
    }
  }

  /** The exponent of the highest set bit. */
  function FloorLog2(n: nat, d: nat): (k: nat)
    requires 0 < d < Pow2(n)
    ensures k < n && Pow2(k) <= d < 2 * Pow2(k)
  {
    LeadingZerosBound(n, d);
    n - 1 - LeadingZeros(n, d)
  }

  /** The test for a power of two: no bit is left when the lowest set bit is cleared. */
  lemma {:induction false} PowerOfTwo(d: nat, k: nat)
    requires Pow2(k) <= d < 2 * Pow2(k)
    ensures And(d, d - 1) == 0 <==> d == Pow2(k)
  {
    if k > 0 {
      PowerOfTwo(d / 2, k - 1);
      if d % 2 == 0 {
        assert (d - 1) / 2 == d / 2 - 1 && (d - 1) % 2 == 1;
      } else {
        assert (d - 1) / 2 == d / 2;
        AndSelf(d / 2);
      }
    }
  }

  /** A divisor of a power of two is a power of two. */
  lemma {:induction false} DividesPow2(d: nat, c: nat, n: nat) returns (k: nat)
    requires d * c == Pow2(n)
    ensures d == Pow2(k)
  {
    if d % 2 == 1 {
      OddDivides(d, c, n);
      k := 0;
    } else {
      HalfTimes(d, c);
      k := DividesPow2(d / 2, c, n - 1);
      k := k + 1;
    }
  }

  lemma HalfTimes(d: nat, c: nat)
    requires d % 2 == 0
    ensures d * c == 2 * ((d / 2) * c)
  {
    var h := d / 2;
    assert d == 2 * h;
  }

  lemma {:induction false} OddDivides(d: nat, c: nat, n: nat)
    requires d % 2 == 1 && d * c == Pow2(n)
    ensures d == 1
  {
    if n == 0 {
      assert d >= 2 && c >= 1 ==> d * c >= 2 * c;
    } else {
      OddTimes(d, c);
      assert d * c == 2 * (d * (c / 2));
      OddDivides(d, c / 2, n - 1);
    }
  }

  lemma OddTimes(d: nat, c: nat)
    requires d % 2 == 1 && (d * c) % 2 == 0
    ensures c % 2 == 0
  {
    var h := d / 2;
    assert d * c == 2 * (h * c) + c by {
      assert d == 2 * h + 1;
    }
  }

  /** Dividing twice is dividing by the product. */
  lemma DivDiv(x: nat, a: nat, b: nat)
    requires a > 0 && b > 0
    ensures a * b > 0 && x / a / b == x / (a * b)
  {
    var y, q := x / a, x / a / b;
    DivPos(a, b);
    Nested(x, a, b, y, q);
    DivUnique(x, a * b, q, a * (y % b) + x % a);
  }

  lemma DivPos(a: nat, b: nat)
    requires a > 0 && b > 0
    ensures a * b > 0
  {}

  lemma Nested(x: nat, a: nat, b: nat, y: nat, q: nat)
    requires a > 0 && b > 0 && y == x / a && q == y / b
    ensures x == q * (a * b) + (a * (y % b) + x % a) && a * (y % b) + x % a < a * b
  {
    var r := y % b;
    Spread(a, b, q, r);
    assert x == a * y + x % a;
    assert y == b * q + r;
  }

  lemma Spread(a: nat, b: nat, q: nat, r: nat)
    requires r < b
    ensures a * (b * q + r) == q * (a * b) + a * r && a * r + a <= a * b
  {
    Distribute(a, b * q, r);
    Reorder(a, b, q);
    MulLe(r + 1, b, a);
    Next(r, a);
  }

  lemma Distribute(a: nat, x: nat, y: nat)
    ensures a * (x + y) == a * x + a * y
  {}

  lemma Reorder(a: nat, b: nat, q: nat)
    ensures a * (b * q) == q * (a * b)
  {}

  /** Quotient and remainder are determined. */
  lemma DivUnique(x: nat, d: nat, q: nat, r: nat)
    requires x == q * d + r && r < d
    ensures x / d == q && x % d == r
  {
    var p, t := x / d, x % d;
    assert (q - p) * d == t - r by {
      assert x == p * d + t;
    }
    assert q - p >= 1 ==> (q - p) * d >= d;
    assert p - q >= 1 ==> (p - q) * d >= d;
    assert (p - q) * d == r - t;
  }

  // Facts of integer arithmetic.

  lemma MulLe(a: int, b: int, c: nat)
    requires a <= b
    ensures a * c <= b * c
  {
    assert (b - a) * c >= 0;
  }

  lemma DivBound(x: nat, d: nat, q: nat)
    requires d > 0 && x < q * d
    ensures x / d < q
  {
    if x / d >= q {
      MulLe(q, x / d, d);
    }
  }

  lemma DivMod(x: nat, d: nat)
    requires d > 0
    ensures x == d * (x / d) + x % d && x % d < d
  {}

  lemma SmallMod(x: nat, m: nat)
    requires x < m
    ensures x % m == x
  {}

  lemma MulCancel(a: int, b: int, c: nat)
    requires a * c < b * c
    ensures a < b
  {
    if a >= b {
      MulLe(b, a, c);
    }
  }

  lemma Next(a: int, c: int)
    ensures (a + 1) * c == a * c + c && (a - 1) * c == a * c - c
  {}

  lemma DivMonotone(x: nat, y: nat, d: nat)
    requires x <= y && d > 0
    ensures x / d <= y / d
  {
    DivMod(x, d);
    DivMod(y, d);
    Next(y / d, d);
    MulCancel(x / d, y / d + 1, d);
  }

  lemma ModShift(x: int, m: nat, k: int)
    requires m > 0
    ensures (x + m * k) % m == x % m
  {
    var q, r := x / m, x % m;
    assert x + m * k == (q + k) * m + r;
    RemainderUnique(x + m * k, m, q + k, r);
  }

  lemma RemainderUnique(x: int, m: nat, q: int, r: nat)
    requires x == q * m + r && r < m
    ensures x % m == r
  {
    var p, t := x / m, x % m;
    assert x == p * m + t;
    assert (q - p) * m == t - r;
    assert (p - q) * m == r - t;
    MulCancel(q - p, 1, m);
    MulCancel(p - q, 1, m);
  }
}
