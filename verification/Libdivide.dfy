/** Division by an invariant divisor through a multiplication by a precomputed magic number. */
module Libdivide {
  import opened Wrappers
  import opened Words
  import opened WideDivision

  datatype Width = W16 | W32 | W64

  /** Half the number of bits of a word. */
  function HalfBits(w: Width): (h: nat)
    ensures 8 <= h <= 32
  {
    match w
    case W16 => 8
    case W32 => 16
    case W64 => 32
  }

  function Bits(w: Width): (n: nat)
    ensures 16 <= n <= 64 && n == 2 * HalfBits(w)
  {
    2 * HalfBits(w)
  }

  /** The precomputed divider: more packs the shift, in its low bits, and the add marker. */
  datatype Divider = Divider(magic: nat, more: nat)

  const ADD_MARKER := 0x40

  predicate HasMarker(more: nat) {
    more / ADD_MARKER % 2 == 1
  }

  /** The bits that the width's shift mask keeps of more. */
  function ShiftOf(w: Width, more: nat): nat {
    match w
    case W16 => more % 0x20
    case W32 => more % 0x20
    case W64 => more % 0x40
  }

  lemma PackedShift(w: Width, k: nat)
    requires k < Bits(w)
    ensures ShiftOf(w, k) == k && ShiftOf(w, k + ADD_MARKER) == k
    ensures !HasMarker(k) && HasMarker(k + ADD_MARKER)
  {}

  // What the divider of d is: the smaller power when it is precise enough, the next one otherwise.

  /** How far the next multiple of d lies above p. */
  function Excess(p: nat, d: nat): nat
    requires d > 0
  {
    d - p % d
  }

  /** The power p divided by d, rounded up when it is not a multiple. */
  function MagicFor(p: nat, d: nat): nat
    requires d > 0
  {
    p / d + 1
  }

  function DividerOf(n: nat, d: nat, branchfree: bool): Divider
    requires 0 < d < Pow2(n)
  {
    var k := FloorLog2(n, d);
    if d == Pow2(k) then
      Divider(0, (k - (if branchfree then 1 else 0)) % 0x100)
    else if !branchfree && Excess(Pow2(n + k), d) < Pow2(k) then
      Divider(MagicFor(Pow2(n + k), d), k)
    else
      Divider(Wrap(n, MagicFor(2 * Pow2(n + k), d)), k + ADD_MARKER)
  }

  // The arithmetic of a magic number m: its product with d lies above the power p by e.

  /** A multiplication by m and a division by p divide every word by d. */
  lemma MagicDivides(m: nat, d: nat, p: nat, e: nat, b: nat, x: nat)
    requires Times(m, d) == p + e && Times(e, b) <= p && d > 0 && x < b && p > 0
    ensures Quo(Times(m, x), p) == Quo(x, d)
  {
    var q, r := x / d, x % d;
    DivMod(x, d);
    LowerProduct(m, d, p, e, x, q);
    UpperProduct(m, d, p, e, b, x, q);
    QuotientBetween(m * x, p, q);
  }

  lemma LowerProduct(m: nat, d: nat, p: nat, e: nat, x: nat, q: nat)
    requires m * d == p + e && q * d <= x && d > 0
    ensures q * p <= m * x
  {
    MulLe(q * d, x, m);
    assert (q * d) * m == q * (m * d);
    assert q * (p + e) == q * p + q * e;
  }

  lemma UpperProduct(m: nat, d: nat, p: nat, e: nat, b: nat, x: nat, q: nat)
    requires m * d == p + e && e * b <= p && x < b && x < q * d + d && d > 0 && p > 0
    ensures m * x < (q + 1) * p
  {
    ScaledBelow(p, e, b, x);
    assert (m * x) * d == (p + e) * x;
    MulLe(x + 1, (q + 1) * d, p);
    assert ((q + 1) * d) * p == ((q + 1) * p) * d;
    assert (x + 1) * p == x * p + p;
    MulCancel(m * x, (q + 1) * p, d);
  }

  lemma ScaledBelow(p: nat, e: nat, b: nat, x: nat)
    requires e * b <= p && x < b && p > 0
    ensures (p + e) * x < x * p + p
  {
    MulLe(x, b - 1, e);
    assert (b - 1) * e == e * b - e;
    if e == 0 {
      assert e * x == 0;
    }
    assert (p + e) * x == p * x + e * x;
  }

  lemma QuotientBetween(y: nat, p: nat, q: nat)
    requires q * p <= y < (q + 1) * p && p > 0
    ensures y / p == q
  {
    DivUnique(y, p, q, y - q * p);
  }

  /** The excess of a divisor that is not a power of two is neither zero nor d. */
  lemma InexactPower(n: nat, k: nat, d: nat)
    requires Pow2(k) < d < 2 * Pow2(k)
    ensures Pow2(n) % d > 0
  {
    if Pow2(n) % d == 0 {
      DivMod(Pow2(n), d);
      var j := DividesPow2(d, Pow2(n) / d, n);
      if j < k {
        Pow2Grows(j, k);
      } else if j > k {
        Pow2Grows(k, j);
      }
    }
  }

  lemma NextMultiple(p: nat, d: nat)
    requires d > 0 && p % d > 0
    ensures Times(MagicFor(p, d), d) == p + Excess(p, d) && 0 < Excess(p, d) < d
  {
    DivMod(p, d);
    Next(p / d, d);
  }

  /** Doubling a quotient, its remainder telling whether one more fits. */
  lemma Doubled(p: nat, d: nat, q: nat, r: nat)
    requires d > 0 && p == Times(q, d) + r && r < d
    ensures 2 * p / d == 2 * q + (if 2 * r >= d then 1 else 0)
  {
    var c := if 2 * r >= d then 1 else 0;
    assert (2 * q + c) * d == 2 * (q * d) + c * d;
    DivUnique(2 * p, d, 2 * q + c, 2 * r - c * d);
  }

  /** A magic number for the power c * k lies strictly between c / 2 and c. */
  lemma MagicBounds(c: nat, k: nat, d: nat, m: nat, e: nat)
    requires 2 * k <= c && k < d < 2 * k && 0 < e < d && Times(m, d) == Times(c, k) + e
    ensures c < 2 * m && k < m < c
  {
    MagicBelow(c, k, d, m, e);
    MagicAbove(c, k, d, m);
  }

  lemma MagicBelow(c: nat, k: nat, d: nat, m: nat, e: nat)
    requires 2 * k <= c && k < d < 2 * k && 0 < e < d && Times(m, d) == Times(c, k) + e
    ensures m < c
  {
    Next(k, c);
    MulLe(k + 1, d, c);
    MulCancel(m, c, d);
  }

  lemma MagicAbove(c: nat, k: nat, d: nat, m: nat)
    requires 2 * k <= c && k < d < 2 * k && Times(m, d) > Times(c, k)
    ensures c < 2 * m
  {
    MulLe(d, 2 * k, m);
    assert (2 * k) * m == (2 * m) * k;
    MulCancel(c, 2 * m, k);
  }

  /** The magic number of the smaller power. */
  lemma PlainMagic(n: nat, d: nat, k: nat, p: nat, m: nat, e: nat)
    requires 0 < d < Pow2(n) && k == FloorLog2(n, d) && d != Pow2(k)
    requires p == Pow2(n + k) && m == MagicFor(p, d) && e == Excess(p, d)
    ensures p == Times(Pow2(n), Pow2(k)) && Times(m, d) == p + e && 0 < e < d
    ensures Pow2(k) < m < Pow2(n)
  {
    hide Pow2, Times, Excess, FloorLog2, MagicFor;
    KnownLog(n, d, k);
    InexactPower(n + k, k, d);
    NextMultiple(p, d);
    PowTimes(n, k);
    MagicBounds(Pow2(n), Pow2(k), d, m, e);
  }

  lemma KnownLog(n: nat, d: nat, k: nat)
    requires 0 < d < Pow2(n) && k == FloorLog2(n, d)
    ensures k < n && Pow2(k) <= d < 2 * Pow2(k) && 2 * Pow2(k) <= Pow2(n)
  {
    hide Pow2;
    Pow2Grows(k, n);
  }

  lemma PowTimes(n: nat, k: nat)
    ensures Pow2(n + k) == Times(Pow2(n), Pow2(k)) && Pow2(n + k + 1) == 2 * Pow2(n + k)
    ensures Times(2 * Pow2(n), Pow2(k)) == 2 * Pow2(n + k)
  {
    Pow2Plus(n, k);
    assert (2 * Pow2(n)) * Pow2(k) == 2 * (Pow2(n) * Pow2(k));
  }

  /** The magic number of the larger power needs one bit more than a word. */
  lemma AddMagic(n: nat, d: nat, k: nat, p: nat, m: nat, e: nat)
    requires 0 < d < Pow2(n) && k == FloorLog2(n, d) && d != Pow2(k)
    requires p == Pow2(n + k) && m == MagicFor(2 * p, d) && e == Excess(2 * p, d)
    ensures p == Times(Pow2(n), Pow2(k)) && Times(m, d) == 2 * p + e && 0 < e < d
    ensures Pow2(n) < m < 2 * Pow2(n) && Wrap(n, m) == m - Pow2(n)
  {
    hide Pow2, Times, Excess, FloorLog2, MagicFor;
    KnownLog(n, d, k);
    PowTimes(n, k);
    InexactPower(n + k + 1, k, d);
    NextMultiple(2 * p, d);
    MagicBounds(2 * Pow2(n), Pow2(k), d, m, e);
    OneWrap(m, Pow2(n));
  }

  lemma OneWrap(x: nat, m: nat)
    requires m <= x < 2 * m
    ensures x % m == x - m
  {
    DivUnique(x, m, 1, x - m);
  }

  // Division with a divider.

  /** The high word of a product: from the widened product, except that of the widest words. */
  function MulHigh(w: Width, x: nat, y: nat): nat {
    match w
    case W16 => Wrap(16, x * y / Pow2(16))
    case W32 => Wrap(32, x * y / Pow2(32))
    case W64 => MulHi(32, x, y)
  }

  lemma MulHighExact(w: Width, x: nat, y: nat)
    requires Word(Bits(w), x) && Word(Bits(w), y)
    ensures MulHigh(w, x, y) == Quo(Times(x, y), Pow2(Bits(w)))
    ensures MulHigh(w, x, y) <= y
  {
    hide Pow2, MulHi;
    HighOfProduct(Pow2(Bits(w)), x, y);
    MulHiExact(HalfBits(w), x, y);
  }

  /** The high word of a product of words is a word, and at most either factor. */
  lemma HighOfProduct(m: nat, x: nat, y: nat)
    requires x < m && y < m
    ensures x * y / m <= y && x * y / m < m && x * y / m % m == x * y / m
  {
    ProductBelow(x, y, m);
    DivBound(x * y, m, m);
    SmallMod(x * y / m, m);
    MulLe(x, m, y);
    Next(y, m);
    DivBound(x * y, m, y + 1);
  }

  /** Half of numer - q, added to q: the sum that a word could not hold, halved. */
  function AddedHalf(w: Width, numer: nat, q: nat): nat {
    Wrap(Bits(w), Wrap(Bits(w), numer - q) / 2 + q)
  }

  lemma AddedHalfExact(w: Width, numer: nat, q: nat)
    requires Word(Bits(w), numer) && q <= numer
    ensures AddedHalf(w, numer, q) == (numer + q) / 2
  {
    hide Pow2;
    SmallMod(numer - q, Pow2(Bits(w)));
    SmallMod((numer - q) / 2 + q, Pow2(Bits(w)));
  }

  function Do(w: Width, numer: nat, denom: Divider): nat {
    if denom.magic == 0 then
      Shr(numer, denom.more)
    else
      var q := MulHigh(w, denom.magic, numer);
      if HasMarker(denom.more) then
        Shr(AddedHalf(w, numer, q), ShiftOf(w, denom.more))
      else
        Shr(q, denom.more)
  }

  function BranchfreeDo(w: Width, numer: nat, denom: Divider): nat {
    Shr(AddedHalf(w, numer, MulHigh(w, denom.magic, numer)), denom.more)
  }

  /** The plain path: multiply, take the high word, shift. */
  lemma PlainPath(b: nat, f: nat, p: nat, m: nat, d: nat, e: nat, x: nat)
    requires p == Times(b, f) && Times(m, d) == p + e && d > 0 && b > 0 && f > 0 && x < b && e <= f
    ensures Quo(Quo(Times(m, x), b), f) == Quo(x, d)
  {
    DivDiv(m * x, b, f);
    MulLe(e, f, b);
    MagicDivides(m, d, p, e, b, x);
  }

  /** The add path: the extra bit of the magic number is restored by adding the numerator. */
  lemma AddPath(b: nat, f: nat, p: nat, magic: nat, d: nat, e: nat, x: nat, q: nat)
    requires p == Times(b, f) && Times(magic + b, d) == 2 * p + e && d > 0 && b > 0 && f > 0 && x < b && e <= 2 * f
    requires q == Quo(Times(magic, x), b)
    ensures Quo((x + q) / 2, f) == Quo(x, d)
  {
    AddNumerator(b, magic, x, q);
    Twice(b, f);
    DivDiv(x + q, 2, f);
    PlainPath(b, 2 * f, 2 * p, magic + b, d, e, x);
  }

  lemma Twice(b: nat, f: nat)
    ensures Times(b, 2 * f) == 2 * Times(b, f)
  {}

  lemma AddNumerator(b: nat, magic: nat, x: nat, q: nat)
    requires b > 0 && q == Quo(Times(magic, x), b)
    ensures Quo(Times(magic + b, x), b) == x + q
  {
    DivMod(magic * x, b);
    assert (magic + b) * x == (x + q) * b + magic * x % b;
    DivUnique((magic + b) * x, b, x + q, magic * x % b);
  }

  lemma ShiftIsDivision(x: nat, k: nat)
    ensures Shr(x, k) == Quo(x, Pow2(k))
  {}

  /** Dividing with the divider of d is dividing by d, for every divisor and every numerator. */
  lemma DoDivides(w: Width, d: nat, numer: nat)
    requires 0 < d < Pow2(Bits(w)) && Word(Bits(w), numer)
    ensures Do(w, numer, DividerOf(Bits(w), d, false)) == numer / d
  {
    hide Pow2, Times, Quo, Shr, MulHigh, AddedHalf, FloorLog2, Excess, MagicFor, Wrap;
    var n := Bits(w);
    var k := FloorLog2(n, d);
    KnownLog(n, d, k);
    QuoIs(numer, d);
    ShiftIsDivision(numer, k);
    SmallMod(k, 0x100);
    if d == Pow2(k) {
    } else if Excess(Pow2(n + k), d) < Pow2(k) {
      PlainDivides(w, d, k, numer);
    } else {
      AddDivides(w, d, k, numer);
    }
  }

  lemma QuoIs(x: nat, d: nat)
    requires d > 0
    ensures Quo(x, d) == x / d
  {}

  lemma PlainDivides(w: Width, d: nat, k: nat, numer: nat)
    requires 0 < d < Pow2(Bits(w)) && Word(Bits(w), numer) && k == FloorLog2(Bits(w), d) && d != Pow2(k)
    requires Excess(Pow2(Bits(w) + k), d) < Pow2(k)
    ensures Do(w, numer, Divider(MagicFor(Pow2(Bits(w) + k), d), k)) == Quo(numer, d)
  {
    hide Pow2, Times, Quo, Shr, MulHigh, AddedHalf, FloorLog2, Excess, MagicFor, Wrap;
    var n := Bits(w);
    var p := Pow2(n + k);
    var m, e := MagicFor(p, d), Excess(p, d);
    KnownLog(n, d, k);
    PlainMagic(n, d, k, p, m, e);
    MulHighExact(w, m, numer);
    PackedShift(w, k);
    ShiftIsDivision(MulHigh(w, m, numer), k);
    PlainPath(Pow2(n), Pow2(k), p, m, d, e, numer);
  }

  /** The add path on the magic number of the larger power, as the full and the branch-free division both take it. */
  lemma AddDivides(w: Width, d: nat, k: nat, numer: nat)
    requires 0 < d < Pow2(Bits(w)) && Word(Bits(w), numer) && k == FloorLog2(Bits(w), d) && d != Pow2(k)
    ensures var magic := Wrap(Bits(w), MagicFor(2 * Pow2(Bits(w) + k), d));
      && Do(w, numer, Divider(magic, k + ADD_MARKER)) == Quo(numer, d)
      && BranchfreeDo(w, numer, Divider(magic, k)) == Quo(numer, d)
  {
    hide Pow2, Times, Quo, Shr, MulHigh, AddedHalf, FloorLog2, Excess, MagicFor, Wrap;
    var n := Bits(w);
    var p := Pow2(n + k);
    var m, e := MagicFor(2 * p, d), Excess(2 * p, d);
    var b, f := Pow2(n), Pow2(k);
    KnownLog(n, d, k);
    AddMagic(n, d, k, p, m, e);
    var q := MulHigh(w, m - b, numer);
    MulHighExact(w, m - b, numer);
    PackedShift(w, k);
    AddedHalfExact(w, numer, q);
    ShiftIsDivision((numer + q) / 2, k);
    AddPath(b, f, p, m - b, d, e, numer, q);
  }

  lemma HalfThenShift(w: Width, numer: nat, k: nat)
    requires Word(Bits(w), numer) && k > 0
    ensures Shr(AddedHalf(w, numer, MulHigh(w, 0, numer)), k - 1) == Quo(numer, Pow2(k))
  {
    hide Pow2, MulHigh, AddedHalf;
    MulHighZero(w, numer);
    AddedHalfExact(w, numer, 0);
    HalfPower(k);
    DivDiv(numer, 2, Pow2(k - 1));
  }

  lemma HalfPower(k: nat)
    requires k > 0
    ensures Pow2(k) == 2 * Pow2(k - 1)
  {}

  lemma MulHighZero(w: Width, y: nat)
    requires Word(Bits(w), y)
    ensures MulHigh(w, 0, y) == 0
  {
    hide Pow2, MulHigh;
    MulHighExact(w, 0, y);
    DivBound(0, Pow2(Bits(w)), 1);
  }

  /** The divider as the branch-free division keeps it, with the shift alone. */
  function Unmarked(w: Width, denom: Divider): Divider {
    Divider(denom.magic, ShiftOf(w, denom.more))
  }

  /** The branch-free division is exact for every divisor but one, which has no branch-free divider. */
  lemma BranchfreeDivides(w: Width, d: nat, numer: nat)
    requires 1 < d < Pow2(Bits(w)) && Word(Bits(w), numer)
    ensures BranchfreeDo(w, numer, Unmarked(w, DividerOf(Bits(w), d, true))) == numer / d
  {
    hide Pow2, Times, Quo, Shr, MulHigh, AddedHalf, FloorLog2, Excess, MagicFor, Wrap;
    var n := Bits(w);
    var k := FloorLog2(n, d);
    KnownLog(n, d, k);
    QuoIs(numer, d);
    PackedShift(w, k);
    if d == Pow2(k) {
      ZeroLog(k);
      PackedShift(w, k - 1);
      SmallMod(k - 1, 0x100);
      HalfThenShift(w, numer, k);
    } else {
      AddDivides(w, d, k, numer);
    }
  }

  lemma ZeroLog(k: nat)
    requires Pow2(k) > 1
    ensures k > 0
  {}

  /** A divider has magic number zero exactly for a power of two, so the shift path is never taken by mistake. */
  lemma MagicZero(n: nat, d: nat, branchfree: bool)
    requires 0 < d < Pow2(n)
    ensures DividerOf(n, d, branchfree).magic < Pow2(n)
    ensures DividerOf(n, d, branchfree).magic == 0 <==> d == Pow2(FloorLog2(n, d))
  {
    hide Pow2, Times, FloorLog2, Excess, MagicFor, Wrap;
    var k := FloorLog2(n, d);
    if d != Pow2(k) {
      var p := Pow2(n + k);
      PlainMagic(n, d, k, p, MagicFor(p, d), Excess(p, d));
      AddMagic(n, d, k, p, MagicFor(2 * p, d), Excess(2 * p, d));
    }
  }

  // The same for words of any size, with the shift and the add marker kept apart.

  /** The halved sum of the add path, in words of n bits. */
  function HalfSum(n: nat, numer: nat, q: nat): nat {
    Wrap(n, Wrap(n, numer - q) / 2 + q)
  }

  lemma HalfSumExact(n: nat, numer: nat, q: nat)
    requires Word(n, numer) && q <= numer
    ensures HalfSum(n, numer, q) == (numer + q) / 2
  {
    hide Pow2;
    SmallMod(numer - q, Pow2(n));
    SmallMod((numer - q) / 2 + q, Pow2(n));
  }

  /** Division of an n-bit word by a magic number and a shift. */
  function Divided(n: nat, numer: nat, magic: nat, add: bool, k: nat): nat {
    if magic == 0 then Shr(numer, k)
    else
      var q := Quo(Times(magic, numer), Pow2(n));
      Shr(if add then HalfSum(n, numer, q) else q, k)
  }

  /** The branch-free division of an n-bit word. */
  function BranchfreeDivided(n: nat, numer: nat, magic: nat, k: nat): nat {
    Shr(HalfSum(n, numer, Quo(Times(magic, numer), Pow2(n))), k)
  }

  lemma HighWord(n: nat, magic: nat, numer: nat)
    requires Word(n, magic) && Word(n, numer)
    ensures Quo(Times(magic, numer), Pow2(n)) <= numer
  {
    hide Pow2;
    var m := Pow2(n);
    MulLe(magic, m, numer);
    DivBound(magic * numer, m, numer + 1) by {
      Next(numer, m);
    }
  }

  /** For every word size, every divisor and every numerator, dividing with the divider is dividing. */
  lemma EveryWidthDivides(n: nat, d: nat, numer: nat)
    requires 0 < d < Pow2(n) && Word(n, numer)
    ensures var k := FloorLog2(n, d);
      Divided(n, numer, DividerOf(n, d, false).magic, Excess(Pow2(n + k), d) >= Pow2(k), k) == numer / d
  {
    hide Pow2, Times, Quo, Shr, HalfSum, FloorLog2, Excess, MagicFor, Wrap;
    var k := FloorLog2(n, d);
    KnownLog(n, d, k);
    QuoIs(numer, d);
    ShiftIsDivision(numer, k);
    if d != Pow2(k) {
      var p, b, f := Pow2(n + k), Pow2(n), Pow2(k);
      var m, e := MagicFor(p, d), Excess(p, d);
      PlainMagic(n, d, k, p, m, e);
      if e < f {
        ShiftIsDivision(Quo(Times(m, numer), b), k);
        PlainPath(b, f, p, m, d, e, numer);
      } else {
        AddDivided(n, d, k, numer);
      }
    }
  }

  lemma AddDivided(n: nat, d: nat, k: nat, numer: nat)
    requires 0 < d < Pow2(n) && Word(n, numer) && k == FloorLog2(n, d) && d != Pow2(k)
    ensures var magic := Wrap(n, MagicFor(2 * Pow2(n + k), d));
      magic > 0 && BranchfreeDivided(n, numer, magic, k) == Quo(numer, d)
  {
    hide Pow2, Times, Quo, Shr, HalfSum, FloorLog2, Excess, MagicFor, Wrap;
    var p, b := Pow2(n + k), Pow2(n);
    var m, e := MagicFor(2 * p, d), Excess(2 * p, d);
    KnownLog(n, d, k);
    AddMagic(n, d, k, p, m, e);
    var q := Quo(Times(m - b, numer), b);
    HighWord(n, m - b, numer);
    HalfSumExact(n, numer, q);
    ShiftIsDivision((numer + q) / 2, k);
    AddPath(b, Pow2(k), p, m - b, d, e, numer, q);
  }

  /** The branch-free division is exact for every word size and every divisor above one. */
  lemma EveryWidthBranchfree(n: nat, d: nat, numer: nat)
    requires 1 < d < Pow2(n) && Word(n, numer)
    ensures var k := FloorLog2(n, d);
      BranchfreeDivided(n, numer, DividerOf(n, d, true).magic, if d == Pow2(k) then k - 1 else k) == numer / d
  {
    hide Pow2, Times, Quo, Shr, HalfSum, FloorLog2, Excess, MagicFor, Wrap;
    var k := FloorLog2(n, d);
    KnownLog(n, d, k);
    QuoIs(numer, d);
    if d == Pow2(k) {
      ZeroLog(k);
      HalvesFirst(n, numer, k);
    } else {
      AddDivided(n, d, k, numer);
    }
  }

  lemma HalvesFirst(n: nat, numer: nat, k: nat)
    requires Word(n, numer) && k > 0
    ensures BranchfreeDivided(n, numer, 0, k - 1) == Quo(numer, Pow2(k))
  {
    hide Pow2, HalfSum;
    DivBound(0, Pow2(n), 1);
    HalfSumExact(n, numer, 0);
    HalfPower(k);
    DivDiv(numer, 2, Pow2(k - 1));
  }

  // Generating a divider.

  /** Divides two words by one: by the double-width division, except for the widest words. */
  method DivideWide(w: Width, u1: nat, u0: nat, v: nat) returns (q: nat, r: nat)
    requires Word(Bits(w), u1) && Word(Bits(w), u0) && Word(Bits(w), v) && v > 0
    ensures Word(Bits(w), q) && Word(Bits(w), r)
    ensures u1 < v ==> Join(Bits(w), u1, u0) == Times(q, v) + r && r < v
  {
    hide Pow2, Times, Quo, Join, Wrap;
    if w == W64 {
      q, r := Divide128By64(32, u1, u0, v);
    } else {
      var n := Join(Bits(w), u1, u0);
      q := Wrap(Bits(w), Quo(n, v));
      r := Wrap(Bits(w), n - Times(q, v));
      WrapWord(Bits(w), Quo(n, v));
      WrapWord(Bits(w), n - Times(q, v));
      NarrowQuotient(Bits(w), u1, u0, v, q, r);
    }
  }

  lemma NarrowQuotient(n: nat, u1: nat, u0: nat, v: nat, q: nat, r: nat)
    requires Word(n, u0) && Word(n, v) && v > 0
    requires q == Wrap(n, Quo(Join(n, u1, u0), v)) && r == Wrap(n, Join(n, u1, u0) - Times(q, v))
    ensures u1 < v ==> Join(n, u1, u0) == Times(q, v) + r && r < v
  {
    hide Pow2, Times, Quo, Rem, Join, Wrap;
    if u1 < v {
      var value := Join(n, u1, u0);
      JoinSmall(n, u1, u0, v);
      QuoBound(value, v, Pow2(n));
      QuoRem(value, v);
      WrapSmall(n, Quo(value, v));
      WrapSmall(n, Rem(value, v));
    }
  }

  lemma WrapWord(n: nat, x: int)
    ensures Word(n, Wrap(n, x))
  {}

  lemma WrapSmall(n: nat, x: nat)
    requires x < Pow2(n)
    ensures Wrap(n, x) == x
  {
    SmallMod(x, Pow2(n));
  }

  lemma JoinSmall(n: nat, u1: nat, u0: nat, v: nat)
    requires Word(n, u0) && u1 < v
    ensures Join(n, u1, u0) < Times(v, Pow2(n))
  {
    hide Pow2;
    Next(v, Pow2(n));
    MulLe(u1, v - 1, Pow2(n));
  }

  /** Doubling the remainder in a word: wrapping around means that it passed d. */
  lemma DoubledRemainder(n: nat, rem: nat, d: nat)
    requires rem < d && Word(n, d)
    ensures Wrap(n, rem + rem) >= d || Wrap(n, rem + rem) < rem <==> 2 * rem >= d
  {
    hide Pow2;
    if 2 * rem >= Pow2(n) {
      OneWrap(2 * rem, Pow2(n));
    } else {
      SmallMod(2 * rem, Pow2(n));
    }
  }

  lemma WrapAdds(n: nat, x: int, y: int)
    ensures Wrap(n, x + Wrap(n, y)) == Wrap(n, x + y)
  {
    hide Pow2;
    var m := Pow2(n);
    assert y == m * (y / m) + y % m;
    ModShift(x + y % m, m, y / m);
  }

  lemma PowerWord(n: nat, k: nat)
    requires k < n
    ensures Shl(n, 1, k) == Pow2(k) && Word(n, Pow2(k)) && Word(n, 0) && Join(n, Pow2(k), 0) == Pow2(n + k)
  {
    hide Pow2;
    Pow2Grows(k, n);
    Pow2Plus(n, k);
    SmallMod(Pow2(k), Pow2(n));
  }

  lemma QuotientMagic(n: nat, k: nat, d: nat, q: nat, rem: nat)
    requires d > 0 && Pow2(n + k) == Times(q, d) + rem && rem < d && Word(n, d)
    ensures MagicFor(Pow2(n + k), d) == 1 + q && Excess(Pow2(n + k), d) == d - rem
    ensures MagicFor(2 * Pow2(n + k), d) == 1 + 2 * q + (if 2 * rem >= d then 1 else 0)
  {
    hide Pow2;
    DivUnique(Pow2(n + k), d, q, rem);
    Doubled(Pow2(n + k), d, q, rem);
  }

  lemma DoubledMagic(n: nat, q: nat, c: nat)
    requires c == 0 || c == 1
    ensures Wrap(n, 1 + (if c == 1 then Wrap(n, Wrap(n, q + q) + 1) else Wrap(n, q + q))) == Wrap(n, 1 + 2 * q + c)
  {
    hide Pow2, Wrap;
    WrapAdds(n, 1, q + q + 1);
    WrapAdds(n, 1, q + q);
  }

  lemma PlainWord(n: nat, d: nat, k: nat)
    requires 0 < d < Pow2(n) && k == FloorLog2(n, d) && d != Pow2(k)
    ensures Wrap(n, MagicFor(Pow2(n + k), d)) == MagicFor(Pow2(n + k), d)
  {
    hide Pow2, MagicFor, FloorLog2;
    PlainMagic(n, d, k, Pow2(n + k), MagicFor(Pow2(n + k), d), Excess(Pow2(n + k), d));
    SmallMod(MagicFor(Pow2(n + k), d), Pow2(n));
  }

  lemma LogOf(n: nat, d: nat)
    requires 0 < d < Pow2(n)
    ensures LeadingZeros(n, d) < n && n - 1 - LeadingZeros(n, d) == FloorLog2(n, d)
    ensures And(d, d - 1) == 0 <==> d == Pow2(FloorLog2(n, d))
  {
    LeadingZerosBound(n, d);
    PowerOfTwo(d, FloorLog2(n, d));
  }

  /** The divider of d; a zero divisor is refused. */
  method Gen(w: Width, d: nat, branchfree: bool) returns (r: Option<Divider>)
    requires Word(Bits(w), d)
    ensures r == if d == 0 then None else Some(DividerOf(Bits(w), d, branchfree))
  {
    hide Pow2, Times, Join, Wrap, Shl, FloorLog2, LeadingZeros, And, MagicFor, Excess;
    if d == 0 {
      return None;
    }
    var n := Bits(w);
    LogOf(n, d);
    var floorLog2 := n - 1 - LeadingZeros(n, d);
    if And(d, d - 1) == 0 {
      return Some(Divider(0, (floorLog2 - if branchfree then 1 else 0) % 0x100));
    }
    KnownLog(n, d, floorLog2);
    PowerWord(n, floorLog2);
    var proposed, rem := DivideWide(w, Shl(n, 1, floorLog2), 0, d);
    QuotientMagic(n, floorLog2, d, proposed, rem);
    var e := d - rem;
    var more;
    if !branchfree && e < Shl(n, 1, floorLog2) {
      more := floorLog2;
      PlainWord(n, d, floorLog2);
    } else {
      DoubledRemainder(n, rem, d);
      DoubledMagic(n, proposed, if 2 * rem >= d then 1 else 0);
      proposed := Wrap(n, proposed + proposed);
      var twiceRem := Wrap(n, rem + rem);
      if twiceRem >= d || twiceRem < rem {
        proposed := Wrap(n, proposed + 1);
      }
      more := floorLog2 + ADD_MARKER;
    }
    r := Some(Divider(Wrap(n, 1 + proposed), more));
  }

  /** The branch-free divider of d; zero and one are refused. */
  method BranchfreeGen(w: Width, d: nat) returns (r: Option<Divider>)
    requires Word(Bits(w), d)
    ensures r == if d <= 1 then None else Some(Unmarked(w, DividerOf(Bits(w), d, true)))
  {
    hide Pow2, FloorLog2, MagicFor, Excess;
    if d == 1 {
      return None;
    }
    var t := Gen(w, d, true);
    r := if t.None? then None else Some(Divider(t.value.magic, ShiftOf(w, t.value.more)));
  }

  // Recovering the divisor.

  /** The magic number, divided into its power, gives the divisor back less one. */
  lemma QuotientByMagic(p: nat, m: nat, d: nat, e: nat)
    requires Times(m, d) == p + e && 0 < e <= m && d > 0
    ensures m > 0 && Quo(p, m) == d - 1
  {
    Next(d, m);
    DivUnique(p, m, d - 1, m - e);
  }

  /** The power 2^(n + shift + 1) over the magic number with its restored bit, rounded down, plus one. */
  function WideRecovery(n: nat, magic: nat, shift: nat): nat {
    Wrap(n, 1 + 2 * Pow2(n + shift) / (Pow2(n) + magic))
  }

  lemma DoubledQuotient(n: nat, magic: nat, shift: nat, q: nat, rem: nat)
    requires Pow2(n + shift) == Times(q, Pow2(n) + magic) + rem && rem < Pow2(n) + magic
    ensures WideRecovery(n, magic, shift)
      == Wrap(n, Wrap(n, q + q + (if 2 * rem >= Pow2(n) + magic then 1 else 0)) + 1)
  {
    hide Pow2;
    Doubled(Pow2(n + shift), Pow2(n) + magic, q, rem);
    WrapAdds(n, 1, q + q + if 2 * rem >= Pow2(n) + magic then 1 else 0);
  }

  /** A remainder by a number of n + 1 bits, doubled in two words. */
  function TwiceDouble(n: nat, r: Double): Double {
    var lo := Wrap(n, r.lo + r.lo);
    Double(Wrap(n, r.hi + r.hi + if lo < r.lo then 1 else 0), lo)
  }

  lemma TwiceExact(n: nat, r: Double)
    requires n >= 2 && DoubleWord(n, r) && Value(n, r) < 2 * Pow2(n)
    ensures DoubleWord(n, TwiceDouble(n, r)) && Value(n, TwiceDouble(n, r)) == 2 * Value(n, r)
  {
    hide Pow2, Wrap;
    var m := Pow2(n);
    var c := if r.lo + r.lo >= m then 1 else 0;
    SmallHigh(m, r.hi, r.lo);
    FourOrMore(n);
    WrapTwice(n, r.lo);
    WrapSmall(n, r.hi + r.hi + c);
    TwiceJoined(m, r.hi, r.lo, c);
  }

  /** Doubling a word wraps around once at most, and the result is smaller exactly if it does. */
  lemma WrapTwice(n: nat, x: nat)
    requires Word(n, x)
    ensures Wrap(n, x + x) == x + x - (if x + x >= Pow2(n) then Pow2(n) else 0)
    ensures Wrap(n, x + x) < x <==> x + x >= Pow2(n)
  {
    hide Pow2;
    if x + x >= Pow2(n) {
      OneWrap(x + x, Pow2(n));
    } else {
      SmallMod(x + x, Pow2(n));
    }
  }

  lemma TwiceJoined(m: nat, hi: nat, lo: nat, c: nat)
    requires c == 0 || (c == 1 && lo + lo >= m)
    ensures (hi + hi + c) * m + (lo + lo - c * m) == 2 * (hi * m + lo)
  {}

  lemma SmallHigh(m: nat, hi: nat, lo: nat)
    requires hi * m + lo < 2 * m
    ensures hi == 0 || hi == 1
  {
    MulCancel(hi, 2, m);
  }

  lemma FourOrMore(n: nat)
    requires n >= 2
    ensures Pow2(n) >= 4
  {
    if n > 2 {
      Pow2Grows(2, n);
    }
  }

  lemma WideValues(n: nat, u1: nat, magic: nat)
    requires n > 0
    ensures Value(n, Double(u1, 0)) == Join(n, u1, 0) && Value(n, Double(1, magic)) == Pow2(n) + magic && Word(n, 1)
  {
    Pow2Grows(0, n);
  }

  /** The division by a magic number of n + 1 bits, which halves the power because the whole one may not fit. */
  method RecoverWide(w: Width, magic: nat, shift: nat) returns (d: nat)
    requires Word(Bits(w), magic) && shift < Bits(w)
    ensures d == WideRecovery(Bits(w), magic, shift)
  {
    hide Pow2, Times, Join, Wrap, Shl, Value, AtLeast, TwiceDouble, WideRecovery;
    var n := Bits(w);
    PowerWord(n, shift);
    var exceeds, half;
    if w == W64 {
      var rest;
      WideValues(n, Pow2(shift), magic);
      half, rest := Divide128By128(32, Double(Shl(n, 1, shift), 0), Double(1, magic));
      DoubledQuotient(n, magic, shift, half, Value(n, rest));
      WideRemainder(n, magic, rest);
      var twice := TwiceDouble(n, rest);
      exceeds := AtLeast(twice, Double(1, magic));
    } else {
      PowerWord(2 * n, n + shift);
      var halfN, wide := Shl(2 * n, 1, n + shift), Pow2(n) + magic;
      NarrowRecovery(n, magic, shift);
      half := Wrap(n, halfN / wide);
      var rem := halfN % wide;
      DoubledQuotient(n, magic, shift, half, rem);
      exceeds := Wrap(2 * n, rem * 2) >= wide;
    }
    d := Wrap(n, Wrap(n, half + half + if exceeds then 1 else 0) + 1);
  }

  lemma WideRemainder(n: nat, magic: nat, rest: Double)
    requires n >= 2 && Word(n, magic) && DoubleWord(n, rest) && Value(n, rest) < Pow2(n) + magic
    ensures AtLeast(TwiceDouble(n, rest), Double(1, magic)) <==> 2 * Value(n, rest) >= Pow2(n) + magic
  {
    hide Pow2, TwiceDouble, AtLeast, Value;
    WideValues(n, 0, magic);
    TwiceExact(n, rest);
    OrderExact(n, TwiceDouble(n, rest), Double(1, magic));
  }

  lemma NarrowRecovery(n: nat, magic: nat, shift: nat)
    requires n >= 2 && Word(n, magic) && shift < n
    ensures var wide := Pow2(n) + magic; var p := Pow2(n + shift);
      && p == Times(Wrap(n, p / wide), wide) + p % wide
      && Wrap(2 * n, (p % wide) * 2) == 2 * (p % wide)
  {
    hide Pow2;
    PowerBelowSquare(n, shift);
    FourOrMore(n);
    Square(n);
    RecoveryBounds(Pow2(n), Pow2(n) + magic, Pow2(n + shift));
    SmallMod(Pow2(n + shift) / (Pow2(n) + magic), Pow2(n));
    SmallMod((Pow2(n + shift) % (Pow2(n) + magic)) * 2, Pow2(2 * n));
  }

  lemma PowerBelowSquare(n: nat, shift: nat)
    requires shift < n
    ensures Pow2(n + shift) < Times(Pow2(n), Pow2(n))
  {
    Pow2Plus(n, shift);
    Pow2Grows(shift, n);
    Next(Pow2(shift), Pow2(n));
    MulLe(Pow2(shift) + 1, Pow2(n), Pow2(n));
  }

  lemma RecoveryBounds(m: nat, wide: nat, p: nat)
    requires 4 <= m <= wide < 2 * m && p < Times(m, m)
    ensures p / wide < m && p == Times(p / wide, wide) + p % wide && 2 * (p % wide) < Times(m, m)
  {
    DivMod(p, wide);
    MulLe(m, wide, m);
    DivBound(p, wide, m);
    MulLe(4, m, m);
  }

  /** A power of two comes back from its shift. */
  lemma RecoversPower(w: Width, c: nat, denom: Divider)
    requires 0 < c < Pow2(Bits(w)) && denom == DividerOf(Bits(w), c, false) && denom.magic == 0
    ensures c == Shl(Bits(w), 1, ShiftOf(w, denom.more))
  {
    hide Pow2, Shl, FloorLog2, MagicFor, Excess;
    var k := FloorLog2(Bits(w), c);
    MagicZero(Bits(w), c, false);
    KnownLog(Bits(w), c, k);
    PackedShift(w, k);
    PowerWord(Bits(w), k);
    SmallMod(k, 0x100);
  }

  /** The plain magic number gives the divisor back, by one division of the same power. */
  lemma RecoversPlain(w: Width, c: nat, denom: Divider, q: nat, rest: nat)
    requires 0 < c < Pow2(Bits(w)) && denom == DividerOf(Bits(w), c, false) && denom.magic != 0 &&
      !HasMarker(denom.more)
    requires var hi := Shl(Bits(w), 1, ShiftOf(w, denom.more));
      hi < denom.magic ==> Join(Bits(w), hi, 0) == Times(q, denom.magic) + rest && rest < denom.magic
    ensures Wrap(Bits(w), 1 + q) == c
  {
    hide Pow2, Shl, FloorLog2, MagicFor, Excess, Times, Join;
    var n := Bits(w);
    var k := FloorLog2(n, c);
    MagicZero(n, c, false);
    KnownLog(n, c, k);
    PackedShift(w, k);
    PowerWord(n, k);
    var p, m := Pow2(n + k), denom.magic;
    PlainMagic(n, c, k, p, m, Excess(p, c));
    QuotientByMagic(p, m, c, Excess(p, c));
    QuotientOf(p, m, q, rest);
    SmallMod(c, Pow2(n));
  }

  lemma QuotientOf(p: nat, m: nat, q: nat, rest: nat)
    requires p == Times(q, m) + rest && rest < m
    ensures Quo(p, m) == q
  {
    DivUnique(p, m, q, rest);
  }

  /** The wide magic number gives the divisor back, by the division of the power it stands for. */
  lemma RecoversWide(n: nat, c: nat, k: nat)
    requires 0 < c < Pow2(n) && k == FloorLog2(n, c) && c != Pow2(k)
    ensures WideRecovery(n, Wrap(n, MagicFor(2 * Pow2(n + k), c)), k) == c
  {
    hide Pow2, FloorLog2, MagicFor, Excess, Times;
    var p := Pow2(n + k);
    var m, e := MagicFor(2 * p, c), Excess(2 * p, c);
    AddMagic(n, c, k, p, m, e);
    QuotientByMagic(2 * p, m, c, e);
    SmallMod(c, Pow2(n));
  }

  lemma RecoversAdd(w: Width, c: nat, denom: Divider)
    requires 0 < c < Pow2(Bits(w)) && denom == DividerOf(Bits(w), c, false) && denom.magic != 0 && HasMarker(denom.more)
    ensures ShiftOf(w, denom.more) < Bits(w) && WideRecovery(Bits(w), denom.magic, ShiftOf(w, denom.more)) == c
  {
    hide Pow2, FloorLog2, MagicFor, Excess, WideRecovery, Wrap;
    var k := FloorLog2(Bits(w), c);
    MagicZero(Bits(w), c, false);
    KnownLog(Bits(w), c, k);
    PackedShift(w, k);
    RecoversWide(Bits(w), c, k);
  }

  lemma RecoversBranchfree(w: Width, c: nat, denom: Divider)
    requires 1 < c < Pow2(Bits(w)) && denom == Unmarked(w, DividerOf(Bits(w), c, true))
    ensures ShiftOf(w, denom.more) + 1 <= Bits(w)
    ensures denom.magic == 0 ==> c == Shl(Bits(w), 1, ShiftOf(w, denom.more) + 1)
    ensures denom.magic != 0 ==> WideRecovery(Bits(w), denom.magic, ShiftOf(w, denom.more)) == c
  {
    hide Pow2, Shl, FloorLog2, MagicFor, Excess, WideRecovery, Wrap;
    var n := Bits(w);
    var k := FloorLog2(n, c);
    MagicZero(n, c, true);
    KnownLog(n, c, k);
    PackedShift(w, k);
    PowerWord(n, k);
    if c == Pow2(k) {
      ZeroLog(k);
      PackedShift(w, k - 1);
      SmallMod(k - 1, 0x100);
    } else {
      RecoversWide(n, c, k);
    }
  }

  /** Every generated divider can be recovered from. */
  lemma GeneratedFits(w: Width, c: nat, branchfree: bool)
    requires 0 < c < Pow2(Bits(w)) && (branchfree ==> c > 1)
    ensures var denom := DividerOf(Bits(w), c, branchfree);
      && Word(Bits(w), denom.magic)
      && ShiftOf(w, denom.more) < Bits(w)
      && ShiftOf(w, ShiftOf(w, denom.more)) < Bits(w)
  {
    hide Pow2, FloorLog2, MagicFor, Excess, Wrap;
    var k := FloorLog2(Bits(w), c);
    MagicZero(Bits(w), c, branchfree);
    KnownLog(Bits(w), c, k);
    PackedShift(w, k);
    if c == Pow2(k) {
      SmallMod(k, 0x100);
      if branchfree {
        ZeroLog(k);
        PackedShift(w, k - 1);
        SmallMod(k - 1, 0x100);
      }
    }
  }

  /** Recovers the divisor that a divider was generated for. */
  method Recover(w: Width, denom: Divider) returns (d: nat)
    requires Word(Bits(w), denom.magic) && ShiftOf(w, denom.more) < Bits(w)
    ensures forall c :: 0 < c < Pow2(Bits(w)) && denom == DividerOf(Bits(w), c, false) ==> d == c
  {
    hide Pow2, Shl, FloorLog2, MagicFor, Excess, WideRecovery, Wrap, Times, Join, DividerOf;
    var n, shift := Bits(w), ShiftOf(w, denom.more);
    if denom.magic == 0 {
      d := Shl(n, 1, shift);
      forall c | 0 < c < Pow2(n) && denom == DividerOf(n, c, false)
        ensures d == c
      {
        RecoversPower(w, c, denom);
      }
    } else if !HasMarker(denom.more) {
      PowerWord(n, shift);
      var q, rest := DivideWide(w, Shl(n, 1, shift), 0, denom.magic);
      d := Wrap(n, 1 + q);
      forall c | 0 < c < Pow2(n) && denom == DividerOf(n, c, false)
        ensures d == c
      {
        RecoversPlain(w, c, denom, q, rest);
      }
    } else {
      d := RecoverWide(w, denom.magic, shift);
      forall c | 0 < c < Pow2(n) && denom == DividerOf(n, c, false)
        ensures d == c
      {
        RecoversAdd(w, c, denom);
      }
    }
  }

  /** Recovers the divisor that a branch-free divider was generated for. */
  method BranchfreeRecover(w: Width, denom: Divider) returns (d: nat)
    requires Word(Bits(w), denom.magic) && ShiftOf(w, denom.more) < Bits(w)
    ensures forall c :: 1 < c < Pow2(Bits(w)) && denom == Unmarked(w, DividerOf(Bits(w), c, true)) ==> d == c
  {
    hide Pow2, Shl, FloorLog2, MagicFor, Excess, WideRecovery, Wrap, DividerOf;
    var n, shift := Bits(w), ShiftOf(w, denom.more);
    if denom.magic == 0 {
      d := Shl(n, 1, shift + 1);
    } else {
      d := RecoverWide(w, denom.magic, shift);
    }
    forall c | 1 < c < Pow2(n) && denom == Unmarked(w, DividerOf(n, c, true))
      ensures d == c
    {
      RecoversBranchfree(w, c, denom);
    }
  }
}
