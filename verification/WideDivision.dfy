/** Multiplication and division of unsigned double words by word arithmetic. A word has 2h bits, half a word h. */
module WideDivision {
  import opened Words

  /** The number held in two words of n bits. */
  function Join(n: nat, hi: nat, lo: nat): nat {
    hi * Pow2(n) + lo
  }

  /** The high word of a product, from products of half words. */
  function MulHi(h: nat, x: nat, y: nat): nat {
    var b := Pow2(h);
    var x0, x1, y0, y1 := x % b, x / b, y % b, y / b;
    var temp := Wrap(2 * h, x1 * y0 + x0 * y0 / b);
    Wrap(2 * h, x1 * y1 + temp / b + Wrap(2 * h, temp % b + x0 * y1) / b)
  }

  // Products, quotients and remainders as plain terms, for proofs that only need the facts stated about them.

  function Times(x: nat, y: nat): nat {
    x * y
  }

  function Quo(x: nat, d: nat): nat
    requires d > 0
  {
    x / d
  }

  function Rem(x: nat, d: nat): nat
    requires d > 0
  {
    x % d
  }

  lemma Square(h: nat)
    ensures Pow2(2 * h) == Pow2(h) * Pow2(h)
  {
    hide Pow2;
    Pow2Plus(h, h);
  }

  lemma HalfProduct(b: nat, x: nat, y: nat)
    requires x < b && y < b
    ensures x * y + 2 * b <= b * b + 1
  {
    MulLe(x, b - 1, y);
    MulLe(y, b - 1, b - 1);
    assert (b - 1) * (b - 1) == b * b - 2 * b + 1;
  }

  lemma Halves(h: nat, x: nat)
    requires Word(2 * h, x)
    ensures x / Pow2(h) < Pow2(h) && x == (x / Pow2(h)) * Pow2(h) + x % Pow2(h)
  {
    hide Pow2;
    Square(h);
    DivBound(x, Pow2(h), Pow2(h));
  }

  /** The carries of the three partial sums, and the remainder left below the high word. */
  lemma HighProduct(b: nat, x1: nat, x0: nat, y1: nat, y0: nat, ph: nat, pl: nat, th: nat, tl: nat, sh: nat, sl: nat)
    requires Times(x0, y0) == Times(b, ph) + pl && Times(x1, y0) + ph == Times(b, th) + tl
    requires tl + Times(x0, y1) == Times(b, sh) + sl && pl < b && sl < b
    ensures Times(Times(x1, b) + x0, Times(y1, b) + y0) ==
      Times(Times(x1, y1) + th + sh, Times(b, b)) + (Times(sl, b) + pl)
    ensures Times(sl, b) + pl < Times(b, b)
  {
    Schoolbook(b, x1, x0, y1, y0);
    Regroup(b, x1 * y1, x1 * y0, x0 * y1, ph, pl, th, tl, sh, sl);
    MulLe(sl, b - 1, b);
    assert (b - 1) * b == b * b - b;
  }

  /** No partial sum overflows two digits. */
  lemma PartialSums(b: nat, x: nat, y: nat, c: nat)
    requires x < b && y < b && c < b
    ensures x * y + c < b * b
  {
    HalfProduct(b, x, y);
  }

  lemma Schoolbook(b: nat, x1: nat, x0: nat, y1: nat, y0: nat)
    ensures (x1 * b + x0) * (y1 * b + y0) == (x1 * y1) * (b * b) + (x1 * y0 + x0 * y1) * b + x0 * y0
  {
    assert (x1 * b + x0) * (y1 * b + y0) == (x1 * b) * (y1 * b) + (x1 * b) * y0 + x0 * (y1 * b) + x0 * y0;
    assert (x1 * b) * (y1 * b) == (x1 * y1) * (b * b);
    assert (x1 * b) * y0 == (x1 * y0) * b;
    assert x0 * (y1 * b) == (x0 * y1) * b;
  }

  lemma Regroup(b: nat, hh: nat, hl: nat, lh: nat, ph: nat, pl: nat, th: nat, tl: nat, sh: nat, sl: nat)
    requires hl + ph == b * th + tl && tl + lh == b * sh + sl
    ensures hh * (b * b) + (hl + lh) * b + (b * ph + pl) == (hh + th + sh) * (b * b) + (sl * b + pl)
  {
    assert (hl + lh) * b + b * ph == (hl + ph + lh) * b;
    assert hl + ph + lh == b * th + b * sh + sl;
    assert (b * th + b * sh + sl) * b == th * (b * b) + sh * (b * b) + sl * b;
  }

  /** A product and a carry fit in two digits. */
  lemma Carry(b: nat, m: nat, x: nat, y: nat, c: nat)
    requires 0 < b && m == Times(b, b) && x < b && y < b && c < b
    ensures m > 0 && Times(x, y) + c < m && Rem(Times(x, y) + c, m) == Times(x, y) + c
    ensures Quo(Times(x, y) + c, b) < b && Rem(Times(x, y) + c, b) < b
    ensures Times(x, y) + c == Times(b, Quo(Times(x, y) + c, b)) + Rem(Times(x, y) + c, b)
  {
    hide Times, Quo, Rem;
    var v := Times(x, y) + c;
    CarryBelow(b, m, x, y, c);
    QuoRem(v, b);
    QuoBound(v, b, b);
    TimesSwap(b, Quo(v, b));
    SmallRem(v, m);
  }

  lemma CarryBelow(b: nat, m: nat, x: nat, y: nat, c: nat)
    requires 0 < b && m == Times(b, b) && x < b && y < b && c < b
    ensures 0 < m && Times(x, y) + c < m
  {
    DivPos(b, b);
    PartialSums(b, x, y, c);
  }

  lemma TimesSwap(x: nat, y: nat)
    ensures Times(x, y) == Times(y, x)
  {}

  lemma SmallRem(x: nat, m: nat)
    requires x < m
    ensures Rem(x, m) == x
  {}

  lemma MulHiDigits(b: nat, m: nat, x1: nat, x0: nat, y1: nat, y0: nat, ph: nat, t: nat, s: nat)
    requires m == Times(b, b) && x1 < b && x0 < b && y1 < b && y0 < b
    requires ph == Quo(Times(x0, y0), b) && m > 0
    requires t == Rem(Times(x1, y0) + ph, m)
    requires s == Rem(Rem(t, b) + Times(x0, y1), m)
    ensures Rem(Times(x1, y1) + Quo(t, b) + Quo(s, b), m) == Quo(Times(Times(x1, b) + x0, Times(y1, b) + y0), m)
  {
    hide Times, Quo, Rem;
    Carry(b, m, x0, y0, 0);
    Carry(b, m, x1, y0, ph);
    Carry(b, m, x0, y1, Rem(t, b));
    HighDigits(b, m, x1, x0, y1, y0, ph, Rem(Times(x0, y0), b), Quo(t, b), Rem(t, b), Quo(s, b), Rem(s, b));
  }

  lemma HighDigits(b: nat, m: nat, x1: nat, x0: nat, y1: nat, y0: nat, ph: nat, pl: nat, th: nat, tl: nat, sh: nat,
    sl: nat)
    requires m == Times(b, b) && m > 0 && x1 < b && x0 < b && y1 < b && y0 < b && pl < b && sl < b
    requires Times(x0, y0) == Times(b, ph) + pl
    requires Times(x1, y0) + ph == Times(b, th) + tl
    requires tl + Times(x0, y1) == Times(b, sh) + sl
    ensures Rem(Times(x1, y1) + th + sh, m) == Quo(Times(Times(x1, b) + x0, Times(y1, b) + y0), m)
  {
    hide Times, Quo, Rem;
    HighProduct(b, x1, x0, y1, y0, ph, pl, th, tl, sh, sl);
    JoinFits(b, x1, x0);
    JoinFits(b, y1, y0);
    QuotientWord(Times(x1, b) + x0, Times(y1, b) + y0, m, Times(x1, y1) + th + sh, Times(sl, b) + pl);
  }

  lemma JoinFits(b: nat, x1: nat, x0: nat)
    requires x1 < b && x0 < b
    ensures Times(x1, b) + x0 < Times(b, b)
  {
    JoinBelow(b, x1, x0);
  }

  lemma QuotientWord(x: nat, y: nat, m: nat, q: nat, r: nat)
    requires x < m && y < m && Times(x, y) == Times(q, m) + r && r < m
    ensures Rem(q, m) == Quo(Times(x, y), m)
  {
    DivUnique(x * y, m, q, r);
    ProductBelow(x, y, m);
    DivBound(x * y, m, m);
    SmallMod(q, m);
  }

  lemma HalvesOf(h: nat, x: nat)
    requires Word(2 * h, x)
    ensures Pow2(2 * h) == Times(Pow2(h), Pow2(h))
    ensures Quo(x, Pow2(h)) < Pow2(h) && Rem(x, Pow2(h)) < Pow2(h)
    ensures x == Times(Quo(x, Pow2(h)), Pow2(h)) + Rem(x, Pow2(h))
  {
    hide Pow2;
    Square(h);
    Halves(h, x);
  }

  lemma MulHiTerms(h: nat, x: nat, y: nat, x1: nat, x0: nat, y1: nat, y0: nat, t: nat, s: nat)
    requires x1 == Quo(x, Pow2(h)) && x0 == Rem(x, Pow2(h)) && y1 == Quo(y, Pow2(h)) && y0 == Rem(y, Pow2(h))
    requires t == Rem(Times(x1, y0) + Quo(Times(x0, y0), Pow2(h)), Pow2(2 * h))
    requires s == Rem(Rem(t, Pow2(h)) + Times(x0, y1), Pow2(2 * h))
    ensures MulHi(h, x, y) == Rem(Times(x1, y1) + Quo(t, Pow2(h)) + Quo(s, Pow2(h)), Pow2(2 * h))
  {
    hide Pow2;
  }

  lemma MulHiQuotient(h: nat, x: nat, y: nat)
    requires Word(2 * h, x) && Word(2 * h, y)
    ensures MulHi(h, x, y) == Quo(Times(x, y), Pow2(2 * h))
  {
    hide Pow2, Times, Quo, Rem, MulHi, Wrap;
    var b, m := Pow2(h), Pow2(2 * h);
    HalvesOf(h, x);
    HalvesOf(h, y);
    var x1, x0, y1, y0 := Quo(x, b), Rem(x, b), Quo(y, b), Rem(y, b);
    var ph := Quo(Times(x0, y0), b);
    var t := Rem(Times(x1, y0) + ph, m);
    var s := Rem(Rem(t, b) + Times(x0, y1), m);
    MulHiTerms(h, x, y, x1, x0, y1, y0, t, s);
    MulHiDigits(b, m, x1, x0, y1, y0, ph, t, s);
  }

  /** The portable high product loses nothing to wrap-around. */
  lemma MulHiExact(h: nat, x: nat, y: nat)
    requires Word(2 * h, x) && Word(2 * h, y)
    ensures MulHi(h, x, y) == x * y / Pow2(2 * h)
  {
    hide Pow2, MulHi;
    MulHiQuotient(h, x, y);
  }

  lemma JoinBelow(b: nat, x1: nat, x0: nat)
    requires x1 < b && x0 < b
    ensures x1 * b + x0 < b * b
  {
    MulLe(x1, b - 1, b);
    assert (b - 1) * b == b * b - b;
  }

  lemma ProductBelow(x: nat, y: nat, m: nat)
    requires x < m && y < m
    ensures x * y < m * m
  {
    MulLe(x, m - 1, y);
    MulLe(y, m, m);
    assert m * y == y * m;
  }

  // One digit of the quotient of a two-word number by a normalised word: num = hi * b + next.

  lemma EstimateError(b: nat, den1: nat, den0: nat, hi: nat, qhat: nat, rhat: nat, next: nat)
    requires hi == Times(qhat, den1) + rhat
    ensures Times(hi, b) + next - Times(qhat, Times(den1, b) + den0) == Times(rhat, b) + next - Times(qhat, den0)
  {
    assert hi * b == qhat * (den1 * b) + rhat * b;
  }

  lemma EstimateDigit(b: nat, den1: nat, den0: nat, hi: nat, qhat: nat, rhat: nat)
    requires den0 < b <= 2 * den1 && hi < Times(den1, b) + den0 && hi == Times(qhat, den1) + rhat
    ensures qhat <= b + 1
  {
    Next(b, den1);
    Next(b + 1, den1);
    MulCancel(qhat, b + 2, den1);
  }

  lemma EstimateProduct(b: nat, den0: nat, qhat: nat)
    requires qhat <= b + 1 && den0 < b
    ensures Times(qhat, den0) < Times(b, b)
  {
    MulLe(qhat, b + 1, den0);
    MulLe(den0, b - 1, b + 1);
    assert (b - 1) * (b + 1) == b * b - 1;
  }

  lemma EstimateBound(b: nat, den1: nat, den0: nat, hi: nat, qhat: nat, rhat: nat)
    requires den0 < b <= 2 * den1 && hi < Times(den1, b) + den0 && hi == Times(qhat, den1) + rhat
    ensures Times(qhat, den0) < Times(b, b)
  {
    hide Times;
    EstimateDigit(b, den1, den0, hi, qhat, rhat);
    EstimateProduct(b, den0, qhat);
  }

  lemma RemainderBound(b: nat, den1: nat, rhat: nat, next: nat)
    requires den1 < b && rhat < den1 && next < b <= 2 * den1
    ensures Times(rhat, b) + next < Times(den1, b) < Times(b, b) <= 2 * Times(den1, b)
  {
    MulLe(rhat, den1 - 1, b);
    assert (den1 - 1) * b == den1 * b - b;
    MulLe(den1, b - 1, b);
    assert (b - 1) * b == b * b - b;
    MulLe(b, 2 * den1, b);
    assert (2 * den1) * b == 2 * (den1 * b);
  }

  lemma DigitFits(b: nat, den: nat, hi: nat, next: nat, q: int, rem: nat)
    requires hi < den && next < b && Times(hi, b) + next == q * den + rem && rem < den
    ensures 0 <= q < b
  {
    MulLe(hi, den - 1, b);
    Next(den, b);
    Next(q, den);
    MulCancel(q, b, den);
    MulCancel(0, q + 1, den);
  }

  function Corrected(qhat: nat, c1: nat, c2: nat, den: nat): int {
    if c1 > c2 then qhat - (if c1 - c2 > den then 2 else 1) else qhat
  }

  lemma CorrectionExact(num: nat, qhat: nat, c1: nat, c2: nat, den: nat)
    requires num - Times(qhat, den) == c2 - c1 && c2 < den && c1 <= 2 * den
    ensures 0 <= num - Corrected(qhat, c1, c2, den) * den < den
  {
    assert (qhat - 1) * den == qhat * den - den && (qhat - 2) * den == qhat * den - 2 * den;
  }

  /** The estimate is at most two too large and the one correction makes the digit exact. */
  lemma DigitExact(b: nat, den: nat, den1: nat, den0: nat, hi: nat, next: nat, qhat: nat, rhat: nat, c1: nat, c2: nat)
    requires den1 < b && den0 < b <= 2 * den1 && den == Times(den1, b) + den0 && hi < den && next < b
    requires hi == Times(qhat, den1) + rhat && rhat < den1
    requires c1 == Times(qhat, den0) && c2 == Times(rhat, b) + next
    ensures c1 < Times(b, b) && c2 < Times(b, b)
    ensures 0 <= Corrected(qhat, c1, c2, den) < b && qhat - 2 <= Corrected(qhat, c1, c2, den) <= qhat
    ensures 0 <= Times(hi, b) + next - Corrected(qhat, c1, c2, den) * den < den
  {
    hide Times;
    EstimateError(b, den1, den0, hi, qhat, rhat, next);
    EstimateBound(b, den1, den0, hi, qhat, rhat);
    RemainderBound(b, den1, rhat, next);
    var num := Times(hi, b) + next;
    CorrectionExact(num, qhat, c1, c2, den);
    DigitFits(b, den, hi, next, Corrected(qhat, c1, c2, den), num - Corrected(qhat, c1, c2, den) * den);
  }

  /** The next digit of the quotient by a normalised den: estimated from the leading digits, then corrected. */
  function Digit(h: nat, hi: nat, next: nat, den: nat): nat
    requires den / Pow2(h) > 0
  {
    var b := Pow2(h);
    var den1, den0 := den / b, den % b;
    var qhat, rhat := hi / den1, hi % den1;
    Wrap(h, Corrected(qhat, Wrap(2 * h, qhat * den0), Wrap(2 * h, rhat * b + next), den))
  }

  lemma DigitTerms(h: nat, hi: nat, next: nat, den: nat, den1: nat, den0: nat, qhat: nat, rhat: nat, c1: nat, c2: nat)
    requires den1 == Quo(den, Pow2(h)) > 0 && den0 == Rem(den, Pow2(h))
    requires qhat == Quo(hi, den1) && rhat == Rem(hi, den1)
    requires c1 == Rem(Times(qhat, den0), Pow2(2 * h)) && c2 == Rem(Times(rhat, Pow2(h)) + next, Pow2(2 * h))
    ensures Quo(den, Pow2(h)) == den / Pow2(h)
    ensures Digit(h, hi, next, den) == Wrap(h, Corrected(qhat, c1, c2, den))
  {
    hide Pow2;
  }

  /** den has its top bit set. */
  predicate Normalized(h: nat, den: nat) {
    h >= 1 && Word(2 * h, den) && Pow2(2 * h - 1) <= den
  }

  lemma TopDigit(h: nat, den: nat)
    requires Normalized(h, den)
    ensures den / Pow2(h) > 0 && Pow2(h) <= 2 * Quo(den, Pow2(h)) && Quo(den, Pow2(h)) < Pow2(h)
    ensures Rem(den, Pow2(h)) < Pow2(h) && den == Times(Quo(den, Pow2(h)), Pow2(h)) + Rem(den, Pow2(h))
    ensures Pow2(2 * h) == Times(Pow2(h), Pow2(h))
  {
    HalvesOf(h, den);
    var b, den1 := Pow2(h), den / Pow2(h);
    Pow2Plus(h - 1, h);
    TopHalf(Pow2(h - 1), b, den, den1, den % b);
  }

  lemma TopHalf(half: nat, b: nat, den: nat, den1: nat, den0: nat)
    requires half * b <= den == den1 * b + den0 && den0 < b
    ensures half <= den1
  {
    Next(den1, b);
    MulCancel(half, den1 + 1, b);
  }

  lemma WrapTerm(n: nat, x: nat)
    requires x < Pow2(n)
    ensures Rem(x, Pow2(n)) == x == Wrap(n, x)
  {
    SmallMod(x, Pow2(n));
  }

  lemma QuoRem(x: nat, d: nat)
    requires d > 0
    ensures x == Times(Quo(x, d), d) + Rem(x, d) && Rem(x, d) < d
  {}

  /** The digit is exact, and what it leaves is below den. */
  lemma DigitDivides(h: nat, hi: nat, next: nat, den: nat)
    requires Normalized(h, den) && hi < den && next < Pow2(h)
    ensures den / Pow2(h) > 0
    ensures Digit(h, hi, next, den) < Pow2(h)
    ensures 0 <= Times(hi, Pow2(h)) + next - Digit(h, hi, next, den) * den < den
  {
    hide Pow2, Times, Quo, Rem, Wrap, Digit, Corrected, Normalized;
    var b := Pow2(h);
    TopDigit(h, den);
    var den1, den0 := Quo(den, b), Rem(den, b);
    var qhat, rhat := Quo(hi, den1), Rem(hi, den1);
    QuoRem(hi, den1);
    var c1, c2 := Times(qhat, den0), Times(rhat, b) + next;
    DigitExact(b, den, den1, den0, hi, next, qhat, rhat, c1, c2);
    WrapTerm(2 * h, c1);
    WrapTerm(2 * h, c2);
    WrapTerm(h, Corrected(qhat, c1, c2, den));
    DigitTerms(h, hi, next, den, den1, den0, qhat, rhat, c1, c2);
  }

  /** Shifting both operands left keeps the quotient, and nothing is shifted out of the numerator. */
  lemma Scaled(f: nat, g: nat, m: nat, numhi: nat, numlo: nat, den: nat)
    requires m == f * g && f > 0 && g > 0 && numlo < m && numhi < den && Times(den, f) < m
    ensures Times(numhi, f) < m && Quo(numlo, g) < f && m > 0
    ensures Times(numhi, f) + Quo(numlo, g) < Times(den, f)
    ensures Times(Times(numhi, f) + Quo(numlo, g), m) + Rem(Times(numlo, f), m) == Times(Times(numhi, m) + numlo, f)
  {
    var top, t := numlo / g, numlo % g;
    DivPos(f, g);
    DivBound(numlo, g, f);
    Next(den, f);
    MulLe(numhi, den - 1, f);
    LowShift(f, g, m, numlo, top, t);
    HighShift(f, m, numhi, numlo, top, t * f);
  }

  lemma LowShift(f: nat, g: nat, m: nat, numlo: nat, top: nat, t: nat)
    requires m == f * g && f > 0 && numlo == g * top + t && t < g
    ensures numlo * f == top * m + t * f && t * f < m
    ensures m > 0 && (numlo * f) % m == t * f
  {
    assert numlo * f == (g * top) * f + t * f;
    assert (g * top) * f == top * m;
    MulLe(t, g - 1, f);
    Next(g, f);
    DivUnique(numlo * f, m, top, t * f);
  }

  lemma HighShift(f: nat, m: nat, numhi: nat, numlo: nat, top: nat, rest: nat)
    requires numlo * f == top * m + rest
    ensures (numhi * f + top) * m + rest == (numhi * m + numlo) * f
  {
    assert (numhi * f + top) * m == (numhi * f) * m + top * m;
    assert (numhi * f) * m == (numhi * m) * f;
    assert (numhi * m + numlo) * f == (numhi * m) * f + numlo * f;
  }

  lemma TwoDigits(b: nat, d: nat, hi: nat, lo1: nat, lo0: nat, q1: nat, q0: nat, rem: nat, low: nat)
    requires Times(hi, b) + lo1 == q1 * d + rem && Times(rem, b) + lo0 == q0 * d + low
    ensures hi * (b * b) + (lo1 * b + lo0) == Times(Times(q1, b) + q0, d) + low
  {
    assert (hi * b + lo1) * b == hi * (b * b) + lo1 * b;
    assert (q1 * d + rem) * b == (q1 * b) * d + rem * b;
    assert (q1 * b + q0) * d == (q1 * b) * d + q0 * d;
  }

  lemma Unscaled(f: nat, num: nat, q: nat, den: nat, low: nat)
    requires f > 0 && num * f == q * (den * f) + low && low < den * f
    ensures num == q * den + low / f && low / f < den
  {
    var r: int := num - q * den;
    assert r * f == num * f - (q * den) * f;
    assert (q * den) * f == q * (den * f);
    MulCancel(-1, r, f) by {
      Next(0, f);
    }
    MulCancel(r, den, f);
    DivUnique(low, f, r, 0);
  }

  // Shifts and halves of a word.

  function Shl(n: nat, x: nat, s: nat): nat {
    Wrap(n, x * Pow2(s))
  }

  function Shr(x: nat, s: nat): nat {
    Quo(x, Pow2(s))
  }

  function Upper(h: nat, x: nat): nat {
    Quo(x, Pow2(h))
  }

  function Lower(h: nat, x: nat): nat {
    x % Pow2(h)
  }

  /** The high word shifted left, its freed low bits filled from the low word. */
  function ShiftedHigh(n: nat, hi: nat, lo: nat, shift: nat): nat
    requires shift <= n
  {
    Shl(n, hi, shift) + (if shift == 0 then 0 else Shr(lo, n - shift))
  }

  /** What is left of a digit's numerator. */
  function Residue(h: nat, hi: nat, next: nat, q: nat, den: nat): nat {
    Wrap(2 * h, hi * Pow2(h) + next - q * den)
  }

  /** What the normalisation of the 128 by 64 division achieves. */
  lemma NormalizedParts(h: nat, numhi: nat, numlo: nat, den: nat, shift: nat)
    requires h >= 1 && Word(2 * h, numlo) && Word(2 * h, den) && numhi < den
    requires shift == LeadingZeros(2 * h, den)
    ensures shift < 2 * h
    ensures Normalized(h, Shl(2 * h, den, shift)) && Shl(2 * h, den, shift) == Times(den, Pow2(shift))
    ensures ShiftedHigh(2 * h, numhi, numlo, shift) < Shl(2 * h, den, shift)
    ensures Join(2 * h, ShiftedHigh(2 * h, numhi, numlo, shift), Shl(2 * h, numlo, shift))
      == Times(Join(2 * h, numhi, numlo), Pow2(shift))
  {
    hide Pow2, Times, Quo, Rem, Shl, Shr, Join;
    var n := 2 * h;
    LeadingZerosBound(n, den);
    var f, g, m := Pow2(shift), Pow2(n - shift), Pow2(n);
    Normalizes(n, den);
    TimesIs(den, f);
    PowSplits(n, shift);
    ShlExact(n, den, shift);
    Scaled(f, g, m, numhi, numlo, den);
    ShlExact(n, numhi, shift);
    ShlRem(n, numlo, shift);
    ZeroShift(h, numlo, shift);
    JoinIs(n, numhi, numlo);
    JoinIs(n, ShiftedHigh(n, numhi, numlo, shift), Shl(n, numlo, shift));
  }

  lemma ZeroShift(h: nat, numlo: nat, shift: nat)
    requires Word(2 * h, numlo) && shift <= 2 * h
    ensures (if shift == 0 then 0 else Shr(numlo, 2 * h - shift)) == Quo(numlo, Pow2(2 * h - shift))
  {
    if shift == 0 {
      DivBound(numlo, Pow2(2 * h), 1);
    }
  }

  lemma TimesIs(x: nat, y: nat)
    ensures Times(x, y) == x * y
  {}

  lemma PowSplits(n: nat, shift: nat)
    requires shift <= n
    ensures Pow2(n) == Pow2(shift) * Pow2(n - shift)
  {
    Pow2Plus(shift, n - shift);
  }

  lemma ShlRem(n: nat, x: nat, s: nat)
    ensures Shl(n, x, s) == Rem(Times(x, Pow2(s)), Pow2(n))
  {
    hide Pow2;
  }

  lemma ShlExact(n: nat, x: nat, s: nat)
    requires Times(x, Pow2(s)) < Pow2(n)
    ensures Shl(n, x, s) == Times(x, Pow2(s))
  {
    hide Pow2;
    SmallMod(x * Pow2(s), Pow2(n));
  }

  lemma JoinIs(n: nat, hi: nat, lo: nat)
    ensures Join(n, hi, lo) == Times(hi, Pow2(n)) + lo
  {
    hide Pow2;
  }

  lemma ShlWord(n: nat, x: nat, s: nat)
    ensures Word(n, Shl(n, x, s))
  {}

  lemma HalvesOfWord(h: nat, x: nat)
    requires Word(2 * h, x)
    ensures Upper(h, x) < Pow2(h) && Lower(h, x) < Pow2(h)
  {
    Halves(h, x);
  }

  /** What two digits of the scaled division say about the unscaled one. */
  lemma TwoDigitQuotient(h: nat, shift: nat, num: nat, den: nat, d: nat, hi: nat, lo: nat, q1: nat, q0: nat,
    rem: nat, low: nat)
    requires Word(2 * h, lo) && d == Times(den, Pow2(shift)) && Join(2 * h, hi, lo) == Times(num, Pow2(shift))
    requires rem == Times(hi, Pow2(h)) + Upper(h, lo) - Times(q1, d)
    requires low == Times(rem, Pow2(h)) + Lower(h, lo) - Times(q0, d) && low < d
    ensures num == Times(Join(h, q1, q0), den) + Shr(low, shift) && Shr(low, shift) < den
  {
    hide Pow2, Times;
    var b := Pow2(h);
    Square(h);
    Halves(h, lo);
    Unfold(h, q1, q0, d);
    TwoDigits(b, d, hi, lo / b, lo % b, q1, q0, rem, low);
    ScaledQuotient(Pow2(shift), num, Times(q1, b) + q0, den, d, low);
  }

  lemma Unfold(h: nat, q1: nat, q0: nat, d: nat)
    ensures Times(q1, d) == q1 * d && Times(q0, d) == q0 * d && Times(q1, Pow2(h)) + q0 == Join(h, q1, q0)
  {}

  lemma ScaledQuotient(f: nat, num: nat, q: nat, den: nat, d: nat, low: nat)
    requires f > 0 && d == Times(den, f) && Times(num, f) == Times(q, d) + low && low < d
    ensures num == Times(q, den) + Quo(low, f) && Quo(low, f) < den
  {
    Unscaled(f, num, q, den, low);
  }

  /** One digit, and a remainder that does not wrap around. */
  lemma DigitStep(h: nat, hi: nat, next: nat, den: nat)
    requires Normalized(h, den) && hi < den && next < Pow2(h)
    ensures den / Pow2(h) > 0 && Digit(h, hi, next, den) < Pow2(h)
    ensures var q := Digit(h, hi, next, den);
      Residue(h, hi, next, q, den) < den && Residue(h, hi, next, q, den) == Times(hi, Pow2(h)) + next - Times(q, den)
  {
    hide Pow2, Digit;
    DigitDivides(h, hi, next, den);
    SmallMod(hi * Pow2(h) + next - Digit(h, hi, next, den) * den, Pow2(2 * h));
  }

  lemma JoinWord(h: nat, q1: nat, q0: nat)
    requires q1 < Pow2(h) && q0 < Pow2(h)
    ensures Word(2 * h, Join(h, q1, q0))
  {
    hide Pow2;
    Square(h);
    JoinBelow(Pow2(h), q1, q0);
  }

  /**
   * Divides the two words by den: exactly when the quotient fits in a word, and with the all-ones answer when it
   * does not. The words of the shifted numerator are joined by plus, their set bits being disjoint.
   */
  method Divide128By64(h: nat, numhi: nat, numlo: nat, den: nat) returns (q: nat, r: nat)
    requires h >= 1 && Word(2 * h, numhi) && Word(2 * h, numlo) && Word(2 * h, den)
    ensures Word(2 * h, q) && Word(2 * h, r)
    ensures numhi < den ==> Join(2 * h, numhi, numlo) == Times(q, den) + r && r < den
    ensures numhi >= den ==> q == r == Pow2(2 * h) - 1
  {
    hide Pow2, Times, Join, Wrap, Digit, Normalized, Shl, Shr, Upper, Lower, Residue, ShiftedHigh, LeadingZeros;
    if numhi >= den {
      return Pow2(2 * h) - 1, Pow2(2 * h) - 1;
    }
    var shift := LeadingZeros(2 * h, den);
    NormalizedParts(h, numhi, numlo, den, shift);
    ShlWord(2 * h, numlo, shift);
    var d, hi, lo := Shl(2 * h, den, shift), ShiftedHigh(2 * h, numhi, numlo, shift), Shl(2 * h, numlo, shift);
    HalvesOfWord(h, lo);
    DigitStep(h, hi, Upper(h, lo), d);
    var q1 := Digit(h, hi, Upper(h, lo), d);
    var rem := Residue(h, hi, Upper(h, lo), q1, d);
    DigitStep(h, rem, Lower(h, lo), d);
    var q0 := Digit(h, rem, Lower(h, lo), d);
    var low := Residue(h, rem, Lower(h, lo), q0, d);
    TwoDigitQuotient(h, shift, Join(2 * h, numhi, numlo), den, d, hi, lo, q1, q0, rem, low);
    JoinWord(h, q1, q0);
    q, r := Join(h, q1, q0), Shr(low, shift);
  }

  // Division of a double word by a double word.

  datatype Double = Double(hi: nat, lo: nat)

  predicate DoubleWord(n: nat, u: Double) {
    Word(n, u.hi) && Word(n, u.lo)
  }

  function Value(n: nat, u: Double): nat {
    Join(n, u.hi, u.lo)
  }

  /** u - w modulo the double word, by a borrow. */
  function SubDouble(n: nat, u: Double, w: Double): Double {
    Double(Wrap(n, u.hi - (w.hi + if u.lo < w.lo then 1 else 0)), Wrap(n, u.lo - w.lo))
  }

  lemma SubExact(n: nat, u: Double, w: Double)
    requires DoubleWord(n, u) && DoubleWord(n, w) && Value(n, w) <= Value(n, u)
    ensures DoubleWord(n, SubDouble(n, u, w)) && Value(n, SubDouble(n, u, w)) == Value(n, u) - Value(n, w)
  {
    hide Pow2;
    var m := Pow2(n);
    WrapBorrow(m, u.lo, w.lo);
    SubWords(m, u.hi, u.lo, w.hi, w.lo, if u.lo < w.lo then 1 else 0);
  }

  lemma SubWords(m: nat, uhi: nat, ulo: nat, whi: nat, wlo: nat, borrow: nat)
    requires uhi < m && ulo < m && whi < m && whi * m + wlo <= uhi * m + ulo
    requires 0 <= ulo - wlo + borrow * m < m
    ensures (uhi - (whi + borrow)) % m == uhi - (whi + borrow)
    ensures (uhi - (whi + borrow)) * m == uhi * m - whi * m - borrow * m
  {
    var hi := uhi - (whi + borrow);
    assert hi * m == uhi * m - whi * m - borrow * m;
    Next(0, m);
    MulCancel(-1, hi, m);
    SmallMod(hi, m);
  }

  lemma WrapBorrow(m: nat, x: nat, y: nat)
    requires x < m && y < m
    ensures (x - y) % m == if x < y then x - y + m else x - y
  {}

  /** Words decide the order of double words. */
  predicate AtLeast(u: Double, w: Double) {
    u.hi > w.hi || (u.hi == w.hi && u.lo >= w.lo)
  }

  lemma OrderExact(n: nat, u: Double, w: Double)
    requires DoubleWord(n, u) && DoubleWord(n, w)
    ensures AtLeast(u, w) <==> Value(n, u) >= Value(n, w)
  {
    hide Pow2;
    var m := Pow2(n);
    if u.hi > w.hi {
      MulLe(w.hi + 1, u.hi, m);
      Next(w.hi, m);
    } else if u.hi < w.hi {
      MulLe(u.hi + 1, w.hi, m);
      Next(u.hi, m);
    }
  }

  function Increment(n: nat, u: Double): Double {
    var lo := Wrap(n, u.lo + 1);
    Double(Wrap(n, u.hi + if lo == 0 then 1 else 0), lo)
  }

  /** The low double word of the product. */
  function TimesDouble(h: nat, q: Double, v: Double): Double {
    Double(Wrap(2 * h, q.hi * v.lo + q.lo * v.hi + MulHi(h, q.lo, v.lo)), Wrap(2 * h, q.lo * v.lo))
  }

  lemma TimesExact(h: nat, q: Double, v: Double)
    requires DoubleWord(2 * h, q) && DoubleWord(2 * h, v) && q.hi == 0
    requires Times(q.lo, Value(2 * h, v)) < Times(Pow2(2 * h), Pow2(2 * h))
    ensures DoubleWord(2 * h, TimesDouble(h, q, v))
    ensures Value(2 * h, TimesDouble(h, q, v)) == Times(q.lo, Value(2 * h, v))
  {
    hide Pow2, MulHi, Times;
    var m := Pow2(2 * h);
    MulHiExact(h, q.lo, v.lo);
    DivMod(q.lo * v.lo, m);
    TimesSplit(m, q.lo, v.hi, v.lo, MulHi(h, q.lo, v.lo), q.lo * v.lo % m);
    SmallMod(q.lo * v.hi + MulHi(h, q.lo, v.lo), m);
  }

  lemma TimesSplit(m: nat, q: nat, hi: nat, lo: nat, high: nat, low: nat)
    requires q * lo == m * high + low && Times(q, hi * m + lo) < Times(m, m)
    ensures (q * hi + high) * m + low == Times(q, hi * m + lo) && q * hi + high < m
  {
    assert (q * hi + high) * m == (q * hi) * m + high * m;
    assert q * (hi * m + lo) == (q * hi) * m + q * lo;
    MulCancel(q * hi + high, m, m);
  }

  /** Shifts left for a positive s and right for a negative one; the filled bits are disjoint from the shifted ones. */
  method ShiftDouble(n: nat, u: Double, s: int) returns (v: Double)
    requires DoubleWord(n, u) && -(n as int) < s < n
    ensures DoubleWord(n, v)
    ensures s >= 0 && Times(Value(n, u), Pow2(s)) < Times(Pow2(n), Pow2(n)) ==>
      Value(n, v) == Times(Value(n, u), Pow2(s))
    ensures s < 0 ==> Value(n, v) == Shr(Value(n, u), -s)
  {
    hide Pow2, Shl, Shr, Value, Times, Word;
    v := u;
    if s > 0 {
      v := Double(Shl(n, u.hi, s) + Shr(u.lo, n - s), Shl(n, u.lo, s));
      LeftShift(n, u, s);
    } else if s < 0 {
      v := Double(Shr(u.hi, -s), Shr(u.lo, -s) + Shl(n, u.hi, n + s));
      RightShift(n, u, -s);
    } else {
      NoShift(Value(n, u));
    }
  }

  lemma NoShift(x: nat)
    ensures Times(x, Pow2(0)) == x
  {}

  lemma LeftShift(n: nat, u: Double, s: nat)
    requires DoubleWord(n, u) && 0 < s < n
    ensures var v := Double(Shl(n, u.hi, s) + Shr(u.lo, n - s), Shl(n, u.lo, s));
      && DoubleWord(n, v)
      && (Times(Value(n, u), Pow2(s)) < Times(Pow2(n), Pow2(n)) ==> Value(n, v) == Times(Value(n, u), Pow2(s)))
  {
    hide Pow2;
    Pow2Plus(s, n - s);
    LeftShiftWords(Pow2(s), Pow2(n - s), Pow2(n), u.hi, u.lo);
  }

  lemma LeftShiftWords(f: nat, g: nat, m: nat, hi: nat, lo: nat)
    requires m == f * g && f > 0 && g > 0 && hi < m && lo < m
    ensures m > 0 && (hi * f) % m + lo / g < m && (lo * f) % m < m
    ensures Times(hi * m + lo, f) < Times(m, m) ==>
      ((hi * f) % m + lo / g) * m + (lo * f) % m == Times(hi * m + lo, f)
  {
    var top, t := lo / g, lo % g;
    DivMod(lo, g);
    LowShift(f, g, m, lo, top, t);
    HighShift(f, m, hi, lo, top, t * f);
    DivBound(lo, g, f);
    FilledBits(f, g, m, hi, top);
    ShiftFits(f, m, hi, lo, top, t * f);
  }

  /** A multiple of f leaves room for a value below f. */
  lemma FilledBits(f: nat, g: nat, m: nat, x: nat, top: nat)
    requires m == f * g && f > 0 && g > 0 && top < f
    ensures m > 0 && (x * f) % m + top < m
  {
    var y, z := x / g, x % g;
    DivMod(x, g);
    assert x * f == y * m + z * f by {
      assert (g * y + z) * f == (g * y) * f + z * f;
      assert (g * y) * f == y * (f * g);
    }
    MulLe(z, g - 1, f);
    Next(g, f);
    DivUnique(x * f, m, y, z * f);
  }

  lemma ShiftFits(f: nat, m: nat, hi: nat, lo: nat, top: nat, rest: nat)
    requires m > 0 && (hi * f + top) * m + rest == (hi * m + lo) * f
    ensures Times(hi * m + lo, f) < Times(m, m) ==> (hi * f) % m == hi * f
  {
    if Times(hi * m + lo, f) < Times(m, m) {
      MulCancel(hi * f + top, m, m);
      SmallMod(hi * f, m);
    }
  }

  lemma RightShift(n: nat, u: Double, s: nat)
    requires DoubleWord(n, u) && 0 < s < n
    ensures var v := Double(Shr(u.hi, s), Shr(u.lo, s) + Shl(n, u.hi, n - s));
      && DoubleWord(n, v)
      && Value(n, v) == Shr(Value(n, u), s)
  {
    hide Pow2;
    Pow2Plus(s, n - s);
    RightShiftWords(Pow2(s), Pow2(n - s), Pow2(n), u.hi, u.lo);
  }

  lemma RightShiftWords(f: nat, g: nat, m: nat, hi: nat, lo: nat)
    requires m == Times(f, g) && f > 0 && g > 0 && hi < m && lo < m
    ensures m > 0 && Quo(hi, f) < m && Quo(lo, f) + Rem(Times(hi, g), m) < m
    ensures Times(Quo(hi, f), m) + (Quo(lo, f) + Rem(Times(hi, g), m)) == Quo(Times(hi, m) + lo, f)
  {
    hide Times, Quo, Rem;
    QuoRem(hi, f);
    QuoRem(lo, f);
    LowBits(f, g, m, hi, Quo(hi, f), Rem(hi, f));
    HighBits(f, g, m, hi, lo);
    Halved(f, g, m, hi, lo, Quo(hi, f), Rem(hi, f), Quo(lo, f), Rem(lo, f));
  }

  lemma LowBits(f: nat, g: nat, m: nat, hi: nat, top: nat, t: nat)
    requires m == Times(f, g) && f > 0 && g > 0 && hi == Times(top, f) + t && t < f
    ensures m > 0 && Rem(Times(hi, g), m) == Times(t, g)
  {
    LowShift(g, f, m, hi, top, t);
  }

  lemma QuoBound(x: nat, d: nat, q: nat)
    requires d > 0 && x < Times(d, q)
    ensures Quo(x, d) < q
  {
    DivBound(x, d, q);
  }

  lemma QuoAtMost(x: nat, d: nat)
    requires d > 0
    ensures Quo(x, d) <= x
  {
    DivBound(x, d, x + 1) by {
      assert x < (x + 1) * d;
    }
  }

  lemma Filled(f: nat, g: nat, m: nat, x: nat, top: nat)
    requires m == Times(g, f) && f > 0 && g > 0 && top < f
    ensures m > 0 && top + Rem(Times(x, f), m) < m
  {
    FilledBits(f, g, m, x, top);
  }

  lemma HighBits(f: nat, g: nat, m: nat, hi: nat, lo: nat)
    requires m == Times(f, g) && f > 0 && g > 0 && hi < m && lo < m
    ensures Quo(hi, f) < m && m > 0 && Quo(lo, f) + Rem(Times(hi, g), m) < m
  {
    hide Times, Quo, Rem;
    QuoAtMost(hi, f);
    QuoBound(lo, f, g);
    Filled(g, f, m, hi, Quo(lo, f));
  }

  lemma Halved(f: nat, g: nat, m: nat, hi: nat, lo: nat, top: nat, t: nat, low: nat, rest: nat)
    requires m == Times(f, g) && hi == Times(top, f) + t && lo == Times(low, f) + rest && rest < f
    ensures Quo(Times(hi, m) + lo, f) == Times(top, m) + (low + Times(t, g))
  {
    SplitRight(f, g, m, hi, lo, top, t, low, rest);
    DivUnique(hi * m + lo, f, top * m + (low + t * g), rest);
  }

  lemma SplitRight(f: nat, g: nat, m: nat, hi: nat, lo: nat, top: nat, t: nat, low: nat, rest: nat)
    requires m == f * g && hi == f * top + t && lo == f * low + rest
    ensures hi * m + lo == (top * m + (low + t * g)) * f + rest
  {
    assert hi * m == (f * top) * m + t * m;
    assert (f * top) * m == (top * m) * f;
    assert t * m == (t * g) * f;
  }

  /** Dividing by the leading word of v, scaled back to w, overshoots the quotient by at most one. */
  lemma EstimateWithinOne(m: nat, l: nat, v1: nat, w: nat, u: nat, v: nat, q0: nat)
    requires w == Times(v1, l) && (l == 2 || l >= 4)
    requires 0 < m <= w <= v < w + l && m <= 2 * v1 && u < Times(m, m)
    requires Times(q0, w) <= u < Times(q0 + 1, w)
    ensures q0 - 1 <= Quo(u, v) <= q0
  {
    hide Times, Quo;
    QuotientAtMost(u, v, w, q0);
    if q0 > 0 {
      OvershootBound(m, l, v1, w, q0, u);
      Overshoot(l, w, v, q0, u);
      QuotientAtLeast(u, v, q0 - 1);
    }
  }

  lemma QuotientAtMost(u: nat, v: nat, w: nat, q: nat)
    requires 0 < w <= v && u < Times(q + 1, w)
    ensures Quo(u, v) <= q
  {
    MulLe(w, v, q + 1);
    DivBound(u, v, q + 1);
  }

  lemma QuotientAtLeast(u: nat, v: nat, q: nat)
    requires v > 0 && Times(q, v) <= u
    ensures q <= Quo(u, v)
  {
    Next(u / v, v);
    DivMod(u, v);
    MulCancel(q, u / v + 1, v);
  }

  lemma OvershootBound(m: nat, l: nat, v1: nat, w: nat, q0: nat, u: nat)
    requires w == Times(v1, l) && (l == 2 || l >= 4) && m <= w && m <= 2 * v1 && Times(q0, w) <= u < Times(m, m) &&
      q0 > 0
    ensures Times(q0 - 1, l - 1) <= w
  {
    hide Times;
    if l == 2 {
      FitsWord(m, w, u, q0);
      TimesOne(q0 - 1);
    } else {
      WideOvershoot(m, l, v1, w, q0, u);
    }
  }

  lemma TimesOne(x: nat)
    ensures Times(x, 1) == x
  {}

  lemma WideOvershoot(m: nat, l: nat, v1: nat, w: nat, q0: nat, u: nat)
    requires w == Times(v1, l) && l >= 4 && m <= 2 * v1 && Times(q0, w) <= u < Times(m, m) && q0 > 0
    ensures Times(q0 - 1, l - 1) <= w
  {
    MulLe(m, 2 * v1, q0 * l);
    assert (2 * v1) * (q0 * l) == 2 * (q0 * (v1 * l));
    MulCancel(q0 * l, 2 * m, m);
    MulLe(4, l, v1);
    assert (q0 - 1) * (l - 1) == q0 * l - q0 - l + 1;
  }

  lemma Overshoot(l: nat, w: nat, v: nat, q0: nat, u: nat)
    requires q0 > 0 && l > 0 && v < w + l && Times(q0, w) <= u && Times(q0 - 1, l - 1) <= w
    ensures Times(q0 - 1, v) <= u
  {
    MulLe(v, w + l - 1, q0 - 1);
    assert (w + l - 1) * (q0 - 1) == (q0 - 1) * w + (q0 - 1) * (l - 1);
    Next(q0, w);
  }

  lemma ValueBounds(n: nat, u: Double)
    requires DoubleWord(n, u)
    ensures Times(u.hi, Pow2(n)) <= Value(n, u) < Times(u.hi + 1, Pow2(n))
    ensures Value(n, u) < Times(Pow2(n), Pow2(n))
    ensures u.hi == 0 <==> Value(n, u) < Pow2(n)
    ensures u.hi == 0 ==> Value(n, u) == u.lo
  {
    hide Pow2;
    var m := Pow2(n);
    Next(u.hi, m);
    JoinBelow(m, u.hi, u.lo);
    if u.hi > 0 {
      MulLe(1, u.hi, m);
    }
  }

  /** The divisor's leading word after normalisation: its value cut down to a multiple of the unit it is shifted by. */
  lemma LeadingWord(n: nat, z: nat, v: Double, v1: Double)
    requires n >= 2 && DoubleWord(n, v) && v.hi > 0 && z == LeadingZeros(n, v.hi) && DoubleWord(n, v1)
    requires Times(Value(n, v), Pow2(z)) < Times(Pow2(n), Pow2(n)) ==> Value(n, v1) == Times(Value(n, v), Pow2(z))
    ensures z < n && (Pow2(n - z) == 2 || Pow2(n - z) >= 4)
    ensures Times(v1.hi, Pow2(n - z)) <= Value(n, v) < Times(v1.hi, Pow2(n - z)) + Pow2(n - z)
    ensures Pow2(n) <= 2 * v1.hi && Pow2(n) <= Times(v1.hi, Pow2(n - z))
  {
    hide Pow2, Times, Value, LeadingZeros;
    LeadingZerosBound(n, v.hi);
    Normalizes(n, v.hi);
    Pow2Plus(z, n - z);
    TwoOrMore(n - z);
    ValueBounds(n, v);
    ScaledValue(Pow2(z), Pow2(n - z), Pow2(n), v.hi, Value(n, v));
    ValueBounds(n, v1);
    LeadingValue(Pow2(z), Pow2(n - z), Pow2(n), v1.hi, Value(n, v));
    HalfWord(n);
    LeadingTop(Pow2(z), Pow2(n - z), Pow2(n), v.hi, v1.hi, Value(n, v));
  }

  lemma TwoOrMore(k: nat)
    requires k > 0
    ensures Pow2(k) == 2 || Pow2(k) >= 4
  {
    if k > 1 {
      Pow2Grows(1, k);
    }
  }

  lemma HalfWord(n: nat)
    requires n > 0
    ensures Pow2(n) == 2 * Pow2(n - 1)
  {}

  lemma ScaledValue(f: nat, l: nat, m: nat, vhi: nat, value: nat)
    requires m == f * l && vhi * f < m && value < Times(vhi + 1, m)
    ensures Times(value, f) < Times(m, m)
  {
    MulCancel(vhi, l, f);
    MulLe(vhi + 1, l, m);
    assert f > 0 ==> value * f < (l * m) * f;
    assert (l * m) * f == m * m;
  }

  lemma LeadingValue(f: nat, l: nat, m: nat, top: nat, value: nat)
    requires m == f * l && f > 0 && Times(top, m) <= Times(value, f) < Times(top + 1, m)
    ensures Times(top, l) <= value < Times(top, l) + l
  {
    assert Times(top, m) == (top * l) * f;
    assert Times(top + 1, m) == ((top + 1) * l) * f;
    Next(top, l);
    Next(value, f);
    MulCancel(top * l, value + 1, f);
    MulCancel(value, (top + 1) * l, f);
  }

  lemma LeadingTop(f: nat, l: nat, m: nat, vhi: nat, top: nat, value: nat)
    requires m <= 2 * (vhi * f) && l >= 2
    requires Times(vhi, m) <= value && Times(value, f) < Times(top + 1, m)
    ensures m <= 2 * top && m <= Times(top, l)
  {
    MulLe(vhi * m, value, f);
    assert (vhi * m) * f == (vhi * f) * m;
    MulCancel(vhi * f, top + 1, m);
    MulLe(2, l, top);
  }

  lemma HalfBelow(n: nat, u: Double, u1: Double, top: nat)
    requires DoubleWord(n, u) && DoubleWord(n, u1) && Value(n, u1) == Shr(Value(n, u), 1) && Pow2(n) <= 2 * top
    ensures u1.hi < top
  {
    hide Value, Times;
    ValueBounds(n, u);
    ValueBounds(n, u1);
    HalfSquare(Pow2(n), u1.hi, Value(n, u));
    assert Shr(Value(n, u), 1) == Value(n, u) / 2;
  }

  lemma HalfSquare(m: nat, top: nat, value: nat)
    requires Times(top, m) <= value / 2 && value < Times(m, m)
    ensures 2 * top < m
  {
    assert (2 * top) * m == 2 * (top * m);
    MulCancel(2 * top, m, m);
  }

  /** The estimate in terms of the two numbers: shifting back divides by the leading word scaled up again. */
  lemma ShiftedBack(n: nat, z: nat, value: nat, top: nat, q1: nat, r: nat, q0: nat)
    requires 0 <= z < n && Shr(value, 1) == Times(q1, top) + r && r < top
    requires q0 == Shr(Times(q1, Pow2(z)), n - 1)
    ensures Times(q0, Times(top, Pow2(n - z))) <= value < Times(q0 + 1, Times(top, Pow2(n - z)))
  {
    hide Pow2, Times;
    var f, k := Pow2(z), Pow2(n - 1 - z);
    Pow2Plus(z, n - 1 - z);
    HalfWord(n - z);
    FirstPower();
    ShiftedQuotient(f, k, q1, q0);
    Unhalved(k, value, top, q1, r, q0);
  }

  lemma FirstPower()
    ensures Pow2(1) == 2
  {}

  lemma ShiftedQuotient(f: nat, k: nat, q1: nat, q0: nat)
    requires f > 0 && k > 0 && f * k > 0 && q0 == Times(q1, f) / (f * k)
    ensures Times(q0, k) <= q1 < Times(q0 + 1, k)
  {
    DivMod(q1 * f, f * k);
    Next(q0, k);
    Next(q1, f);
    assert (f * k) * q0 == (q0 * k) * f;
    assert (q0 * k + k) * f == (q0 * k) * f + f * k;
    MulCancel(q0 * k, q1 + 1, f);
    MulCancel(q1, q0 * k + k, f);
  }

  lemma Unhalved(k: nat, value: nat, top: nat, q1: nat, r: nat, q0: nat)
    requires value / 2 == Times(q1, top) + r && r < top && Times(q0, k) <= q1 < Times(q0 + 1, k)
    ensures Times(q0, Times(top, 2 * k)) <= value < Times(q0 + 1, Times(top, 2 * k))
  {
    MulLe(q0 * k, q1, top);
    MulLe(q1 + 1, (q0 + 1) * k, top);
    Next(q1, top);
    Doubling(q0, k, top);
    Doubling(q0 + 1, k, top);
  }

  lemma Doubling(q: nat, k: nat, top: nat)
    ensures Times(q, Times(top, 2 * k)) == 2 * ((q * k) * top)
  {}

  lemma FitsWord(m: nat, w: nat, value: nat, q: nat)
    requires m <= w && Times(q, w) <= value < Times(m, m)
    ensures q < m
  {
    MulLe(m, w, q);
    MulCancel(q, m, m);
  }

  /** A quotient that is right or one short, and the remainder that tells which. */
  lemma OneShort(value: nat, v: nat, q: nat)
    requires v > 0 && Quo(value, v) - 1 <= q <= Quo(value, v)
    ensures Times(q, v) <= value && (value - Times(q, v) < v <==> q == Quo(value, v))
    ensures q != Quo(value, v) ==> Times(q + 1, v) <= value && value - Times(q + 1, v) < v
    ensures q != Quo(value, v) ==> Times(q + 1, v) == Times(q, v) + v
  {
    QuoRem(value, v);
    Next(Quo(value, v), v);
    Next(q, v);
  }

  /** q, r are the quotient and the remainder of u by v. */
  ghost predicate Divides(n: nat, u: Double, v: Double, q: nat, r: Double) {
    Value(n, u) == Times(q, Value(n, v)) + Value(n, r) && Value(n, r) < Value(n, v)
  }

  /** A first quotient by the leading word of v, lowered by one unless it is zero. */
  method EstimateQuotient(h: nat, u: Double, v: Double) returns (q0: Double)
    requires h >= 1 && DoubleWord(2 * h, u) && DoubleWord(2 * h, v) && v.hi > 0
    ensures DoubleWord(2 * h, q0) && q0.hi == 0 && Value(2 * h, v) > 0
    ensures var q := Quo(Value(2 * h, u), Value(2 * h, v)); q - 1 <= q0.lo <= q && q < Pow2(2 * h)
  {
    hide Pow2, Times, Quo, Shr, Shl, Value, Join, Wrap, Word, LeadingZeros, SubDouble;
    ghost var n, m, value, w := 2 * h, Pow2(2 * h), Value(2 * h, u), Value(2 * h, v);
    var z := LeadingZeros(2 * h, v.hi);
    ZerosBelow(2 * h, v);
    var v1 := ShiftDouble(2 * h, v, z);
    LeadingWord(n, z, v, v1);
    var u1 := ShiftDouble(2 * h, u, -1);
    HalfBelow(n, u, u1, v1.hi);
    var q1, r := Divide128By64(h, u1.hi, u1.lo, v1.hi);
    ShiftedEstimate(n, z, q1);
    q0 := ShiftDouble(2 * h, Double(0, q1), z);
    q0 := ShiftDouble(2 * h, q0, -(2 * h - 1));
    JoinValue(n, u1);
    ShiftedBack(n, z, value, v1.hi, q1, r, Value(n, q0));
    ValueBounds(n, u);
    EstimateWithinOne(m, Pow2(n - z), v1.hi, Times(v1.hi, Pow2(n - z)), value, w, Value(n, q0));
    FitsWord(m, Times(v1.hi, Pow2(n - z)), value, Value(n, q0));
    ValueBounds(n, q0);
    if q0.hi != 0 || q0.lo != 0 {
      SubOne(n, q0);
      q0 := SubDouble(2 * h, q0, Double(0, 1));
    }
  }

  lemma ZerosBelow(n: nat, v: Double)
    requires DoubleWord(n, v) && v.hi > 0
    ensures LeadingZeros(n, v.hi) < n
  {
    LeadingZerosBound(n, v.hi);
  }

  lemma JoinValue(n: nat, u: Double)
    ensures Join(n, u.hi, u.lo) == Value(n, u)
  {}

  lemma ShiftedEstimate(n: nat, z: nat, q1: nat)
    requires Word(n, q1) && z < n
    ensures Word(n, 0) && Value(n, Double(0, q1)) == q1 && Times(q1, Pow2(z)) < Times(Pow2(n), Pow2(n))
  {
    hide Pow2;
    PowBelow(z, n);
    ProductBelow(q1, Pow2(z), Pow2(n));
  }

  lemma PowBelow(z: nat, n: nat)
    requires z < n
    ensures Pow2(z) < Pow2(n)
  {
    Pow2Grows(z, n);
  }

  lemma SubOne(n: nat, q: Double)
    requires DoubleWord(n, q) && q.hi == 0 && q.lo > 0
    ensures DoubleWord(n, SubDouble(n, q, Double(0, 1))) && SubDouble(n, q, Double(0, 1)) == Double(0, q.lo - 1)
  {
    hide Pow2;
    SmallMod(q.lo - 1, Pow2(n));
    SmallMod(0, Pow2(n));
  }

  lemma AddOne(n: nat, q: Double)
    requires DoubleWord(n, q) && q.hi == 0 && q.lo + 1 < Pow2(n)
    ensures Increment(n, q) == Double(0, q.lo + 1)
  {
    hide Pow2;
    SmallMod(q.lo + 1, Pow2(n));
    SmallMod(0, Pow2(n));
  }

  /** The product of the estimate with v stays a double word below u. */
  lemma EstimateProductFits(h: nat, u: Double, v: Double, q0: Double)
    requires DoubleWord(2 * h, u) && DoubleWord(2 * h, v) && DoubleWord(2 * h, q0) && q0.hi == 0
    requires Times(q0.lo, Value(2 * h, v)) <= Value(2 * h, u)
    ensures var p := TimesDouble(h, q0, v);
      DoubleWord(2 * h, p) && Value(2 * h, p) == Times(q0.lo, Value(2 * h, v)) && Value(2 * h, p) <= Value(2 * h, u)
  {
    hide Pow2, Times, Value, TimesDouble;
    ValueBounds(2 * h, u);
    TimesExact(h, q0, v);
  }

  /**
   * Divides a double word by a double word: exactly when the quotient fits in a word, which a divisor of more than a
   * word always ensures; and with the answer of the narrower division when it does not.
   */
  method Divide128By128(h: nat, u: Double, v: Double) returns (q: nat, r: Double)
    requires h >= 1 && DoubleWord(2 * h, u) && DoubleWord(2 * h, v)
    ensures Word(2 * h, q) && DoubleWord(2 * h, r)
    ensures v.hi != 0 || u.hi < v.lo ==> Divides(2 * h, u, v, q, r)
    ensures v.hi == 0 && u.hi >= v.lo ==> q == Pow2(2 * h) - 1 && r == Double(0, Pow2(2 * h) - 1)
  {
    hide Pow2, Times, Quo, Value, Join, Wrap, Word, SubDouble, TimesDouble, AtLeast, Increment;
    ghost var n, value, w := 2 * h, Value(2 * h, u), Value(2 * h, v);
    if v.hi == 0 {
      var rest;
      q, rest := Divide128By64(h, u.hi, u.lo, v.lo);
      r := Double(0, rest);
      NarrowValues(n, u, v, r);
      return;
    }
    var q0 := EstimateQuotient(h, u, v);
    OneShort(value, w, q0.lo);
    EstimateProductFits(h, u, v, q0);
    var q0v := TimesDouble(h, q0, v);
    SubExact(n, u, q0v);
    r := SubDouble(2 * h, u, q0v);
    OrderExact(n, r, v);
    if AtLeast(r, v) {
      AddOne(n, q0);
      q0 := Increment(2 * h, q0);
      SubExact(n, r, v);
      r := SubDouble(2 * h, r, v);
    }
    q := q0.lo;
    QuotientFits(n, u, v, q);
  }

  lemma QuotientFits(n: nat, u: Double, v: Double, q: nat)
    requires DoubleWord(n, u) && DoubleWord(n, v) && v.hi > 0 && Times(q, Value(n, v)) <= Value(n, u)
    ensures Word(n, q)
  {
    hide Pow2, Times, Value;
    ValueBounds(n, u);
    ValueBounds(n, v);
    FitsWord(Pow2(n), Value(n, v), Value(n, u), q);
  }

  lemma NarrowValues(n: nat, u: Double, v: Double, r: Double)
    requires v.hi == 0 && r.hi == 0
    ensures Value(n, u) == Join(n, u.hi, u.lo) && Value(n, v) == v.lo && Value(n, r) == r.lo && Word(n, 0)
  {}

  /** When the answer is the all-ones one, no word is the quotient. */
  lemma NoWordQuotient(n: nat, u: Double, v: Double, q: nat, r: Double)
    requires DoubleWord(n, u) && v.hi == 0 && u.hi >= v.lo && Word(n, q)
    ensures !Divides(n, u, v, q, r)
  {
    hide Pow2;
    var m := Pow2(n);
    Next(q, v.lo);
    MulLe(q + 1, m, v.lo);
    MulLe(v.lo, u.hi, m);
  }
}
