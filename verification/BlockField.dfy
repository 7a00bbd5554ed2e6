/** The multiplication of 128-bit blocks: a commutative ring of characteristic two. */
module BlockField {
  import opened Algebra

  const BITS: nat := 128

  /** A block as its bits, the lowest first: the coefficients of a polynomial over GF(2). */
  type Block = b: seq<bool> | |b| == BITS witness seq(BITS, _ => false)

  /** The low coefficients of the modulus x^128 + x^7 + x^2 + x + 1. */
  predicate ModulusBit(i: nat) {
    i == 0 || i == 1 || i == 2 || i == 7
  }

  function Zero(): Block {
    seq(BITS, _ => false)
  }

  /** The block with bit j alone. */
  function Unit(j: nat): Block {
    seq(BITS, i => i == j)
  }

  function Xor(a: Block, b: Block): Block {
    seq(BITS, i requires 0 <= i < BITS => a[i] != b[i])
  }

  /** One shift of the multiplicand, reduced by the modulus when its top bit falls out. */
  function Twice(a: Block): Block {
    seq(BITS, i requires 0 <= i < BITS => (i > 0 && a[i - 1]) != (a[BITS - 1] && ModulusBit(i)))
  }

  function Masked(a: Block, bit: bool): Block {
    if bit then a else Zero()
  }

  /** The multiples of a selected by the bits of b from i on, a being already shifted i times. */
  function MulFrom(a: Block, b: Block, i: nat): Block
    requires i <= BITS
    decreases BITS - i
  {
    if i == BITS then Zero() else Xor(Masked(a, b[i]), MulFrom(Twice(a), b, i + 1))
  }

  function Times(a: Block, b: Block): Block {
    MulFrom(a, b, 0)
  }

  /** The shift-and-add loop of the portable multiplication. */
  method GfMul(x: Block, y: Block) returns (result: Block)
    ensures result == Times(x, y)
  {
    hide Xor, Twice;
    result := Zero();
    var shifted := x;
    XorGroup(Times(x, y), x, x);
    for i := 0 to BITS
      invariant Times(x, y) == Xor(result, MulFrom(shifted, y, i))
    {
      var rest := MulFrom(Twice(shifted), y, i + 1);
      XorGroup(result, Masked(shifted, y[i]), rest);
      XorGroup(result, rest, rest);
      XorGroup(rest, rest, rest);
      if y[i] {
        result := Xor(result, shifted);
      }
      shifted := Twice(shifted);
    }
    XorGroup(result, result, result);
  }

  lemma XorGroup(a: Block, b: Block, c: Block)
    ensures Xor(a, b) == Xor(b, a)
    ensures Xor(Xor(a, b), c) == Xor(a, Xor(b, c))
    ensures Xor(a, Zero()) == a && Xor(Zero(), a) == a && Xor(a, a) == Zero()
  {
  }

  lemma XorIsGroup()
    ensures XorLaws(Zero(), Xor)
  {
    hide Xor;
    forall a: Block, b: Block, c: Block
      ensures Xor(Xor(a, b), c) == Xor(a, Xor(b, c))
    {
      XorGroup(a, b, c);
    }
    forall a: Block, b: Block
      ensures Xor(a, b) == Xor(b, a)
    {
      XorGroup(a, b, b);
    }
    forall a: Block
      ensures Xor(a, Zero()) == a && Xor(a, a) == Zero()
    {
      XorGroup(a, a, a);
    }
  }

  lemma XorPairs(a: Block, b: Block, c: Block, d: Block)
    ensures Xor(Xor(a, b), Xor(c, d)) == Xor(Xor(a, c), Xor(b, d))
  {
  }

  lemma TwiceXor(a: Block, b: Block)
    ensures Twice(Xor(a, b)) == Xor(Twice(a), Twice(b)) && Twice(Zero()) == Zero()
  {
  }

  lemma {:induction false} MulXorLeft(a: Block, a': Block, b: Block, i: nat)
    requires i <= BITS
    ensures MulFrom(Xor(a, a'), b, i) == Xor(MulFrom(a, b, i), MulFrom(a', b, i))
    decreases BITS - i
  {
    hide Xor, Twice;
    XorGroup(Zero(), Zero(), Zero());
    if i < BITS {
      TwiceXor(a, a');
      MulXorLeft(Twice(a), Twice(a'), b, i + 1);
      XorPairs(Masked(a, b[i]), MulFrom(Twice(a), b, i + 1), Masked(a', b[i]), MulFrom(Twice(a'), b, i + 1));
    }
  }

  lemma {:induction false} MulXorRight(a: Block, b: Block, b': Block, i: nat)
    requires i <= BITS
    ensures MulFrom(a, Xor(b, b'), i) == Xor(MulFrom(a, b, i), MulFrom(a, b', i))
    decreases BITS - i
  {
    XorGroup(Zero(), Zero(), Zero());
    if i < BITS {
      MulXorRight(Twice(a), b, b', i + 1);
      XorGroup(a, a, a);
      assert Masked(a, Xor(b, b')[i]) == Xor(Masked(a, b[i]), Masked(a, b'[i]));
      XorPairs(Masked(a, b[i]), MulFrom(Twice(a), b, i + 1), Masked(a, b'[i]), MulFrom(Twice(a), b', i + 1));
    }
  }

  lemma {:induction false} MulTwice(a: Block, b: Block, i: nat)
    requires i <= BITS
    ensures MulFrom(Twice(a), b, i) == Twice(MulFrom(a, b, i))
    decreases BITS - i
  {
    hide Xor, Twice;
    TwiceXor(Zero(), Zero());
    if i < BITS {
      MulTwice(Twice(a), b, i + 1);
      TwiceXor(Masked(a, b[i]), MulFrom(Twice(a), b, i + 1));
    }
  }

  /** Shifting j times. */
  function Shift(a: Block, j: nat): Block {
    if j == 0 then a else Twice(Shift(a, j - 1))
  }

  lemma {:induction false} ShiftTwice(a: Block, j: nat)
    ensures Shift(Twice(a), j) == Twice(Shift(a, j))
  {
    if j > 0 {
      ShiftTwice(a, j - 1);
    }
  }

  /** Multiplying by a single bit from the right is shifting. */
  lemma {:induction false} MulUnit(a: Block, j: nat, i: nat)
    requires i <= BITS && j < BITS
    ensures MulFrom(a, Unit(j), i) == if i <= j then Shift(a, j - i) else Zero()
    decreases BITS - i
  {
    hide Xor, Twice;
    if i < BITS {
      MulUnit(Twice(a), j, i + 1);
      if i <= j {
        XorGroup(a, a, a);
        XorGroup(Shift(a, j - i), a, a);
        if i < j {
          ShiftTwice(a, j - i - 1);
        }
      } else {
        XorGroup(Zero(), a, a);
      }
    }
  }

  lemma TwiceUnit(j: nat)
    requires j + 1 < BITS
    ensures Twice(Unit(j)) == Unit(j + 1)
  {
  }

  /** The bits of b from i on. */
  function High(b: Block, i: nat): Block {
    seq(BITS, k requires 0 <= k < BITS => k >= i && b[k])
  }

  lemma HighStep(b: Block, i: nat)
    requires i < BITS
    ensures High(b, i) == Xor(Masked(Unit(i), b[i]), High(b, i + 1))
  {
  }

  /** The block one is neutral on the left. */
  lemma {:induction false} MulOneLeft(b: Block, i: nat)
    requires i < BITS
    ensures MulFrom(Unit(i), b, i) == High(b, i)
    decreases BITS - i
  {
    HighStep(b, i);
    if i + 1 < BITS {
      TwiceUnit(i);
      MulOneLeft(b, i + 1);
    } else {
      assert High(b, i + 1) == Zero();
    }
  }

  lemma OneLeft(b: Block)
    ensures Times(Unit(0), b) == b
  {
    hide MulFrom, Unit;
    MulOneLeft(b, 0);
    assert High(b, 0) == b;
  }

  lemma {:induction false} ShiftMul(a: Block, b: Block, j: nat)
    ensures Times(Shift(a, j), b) == Shift(Times(a, b), j)
  {
    hide Xor, Twice, MulFrom;
    if j > 0 {
      ShiftMul(a, b, j - 1);
      MulTwice(Shift(a, j - 1), b, 0);
    }
  }

  lemma {:induction false} ShiftOne(j: nat)
    requires j < BITS
    ensures Shift(Unit(0), j) == Unit(j)
  {
    if j > 0 {
      ShiftOne(j - 1);
      TwiceUnit(j - 1);
    }
  }

  /** A single bit can be multiplied from either side. */
  lemma UnitCommutes(a: Block, j: nat)
    requires j < BITS
    ensures Times(Unit(j), a) == Shift(a, j) == Times(a, Unit(j))
  {
    hide Xor, Twice, MulFrom, Unit;
    MulUnit(a, j, 0);
    ShiftOne(j);
    ShiftMul(Unit(0), a, j);
    OneLeft(a);
  }

  /** The bits of b below k. */
  function Low(b: Block, k: nat): Block {
    seq(BITS, i requires 0 <= i < BITS => i < k && b[i])
  }

  lemma LowStep(b: Block, k: nat)
    requires k < BITS
    ensures Low(b, k + 1) == Xor(Low(b, k), Masked(Unit(k), b[k]))
  {
  }

  lemma LowEnds(b: Block)
    ensures Low(b, 0) == Zero() && Low(b, BITS) == b
  {
  }

  lemma MulZero(a: Block)
    ensures Times(a, Zero()) == Zero() && Times(Zero(), a) == Zero()
  {
    XorGroup(Zero(), Zero(), Zero());
    MulXorRight(a, Zero(), Zero(), 0);
    MulXorLeft(Zero(), Zero(), a, 0);
    XorGroup(Times(a, Zero()), Zero(), Zero());
    XorGroup(Times(Zero(), a), Zero(), Zero());
  }

  lemma {:induction false} LowCommutes(a: Block, b: Block, k: nat)
    requires k <= BITS
    ensures Times(a, Low(b, k)) == Times(Low(b, k), a)
  {
    hide Xor, Low, MulFrom;
    MulZero(a);
    LowEnds(b);
    if k > 0 {
      LowCommutes(a, b, k - 1);
      LowStep(b, k - 1);
      UnitCommutes(a, k - 1);
      var m := Masked(Unit(k - 1), b[k - 1]);
      MulXorRight(a, Low(b, k - 1), m, 0);
      MulXorLeft(Low(b, k - 1), m, a, 0);
    }
  }

  lemma TimesCommutes(a: Block, b: Block)
    ensures Times(a, b) == Times(b, a)
  {
    LowCommutes(a, b, BITS);
    LowEnds(b);
  }

  lemma UnitAssociates(a: Block, b: Block, j: nat)
    requires j < BITS
    ensures Times(Times(a, b), Unit(j)) == Times(a, Times(b, Unit(j)))
  {
    UnitCommutes(Times(a, b), j);
    UnitCommutes(b, j);
    TimesCommutes(a, Shift(b, j));
    ShiftMul(b, a, j);
    TimesCommutes(a, b);
  }

  lemma {:induction false} LowAssociates(a: Block, b: Block, c: Block, k: nat)
    requires k <= BITS
    ensures Times(Times(a, b), Low(c, k)) == Times(a, Times(b, Low(c, k)))
  {
    hide Xor, Low, MulFrom;
    MulZero(a);
    MulZero(b);
    MulZero(Times(a, b));
    LowEnds(c);
    if k > 0 {
      LowAssociates(a, b, c, k - 1);
      LowStep(c, k - 1);
      UnitAssociates(a, b, k - 1);
      var m := Masked(Unit(k - 1), c[k - 1]);
      MulXorRight(Times(a, b), Low(c, k - 1), m, 0);
      MulXorRight(b, Low(c, k - 1), m, 0);
      MulXorRight(a, Times(b, Low(c, k - 1)), Times(b, m), 0);
    }
  }

  lemma TimesAssociates(a: Block, b: Block, c: Block)
    ensures Times(Times(a, b), c) == Times(a, Times(b, c))
  {
    LowAssociates(a, b, c, BITS);
    LowEnds(c);
  }

  lemma TimesXor(a: Block, b: Block, c: Block)
    ensures Times(a, Xor(b, c)) == Xor(Times(a, b), Times(a, c))
    ensures Times(Xor(b, c), a) == Xor(Times(b, a), Times(c, a))
  {
    MulXorRight(a, b, c, 0);
    MulXorLeft(b, c, a, 0);
  }

  lemma TimesOne(a: Block)
    ensures Times(a, Unit(0)) == a && Times(Unit(0), a) == a
  {
    UnitCommutes(a, 0);
  }

  /** Blocks with xor and this multiplication, acting on themselves. */
  function BlockSpace(): Space<Block, Block> {
    Space(Zero(), Unit(0), Xor, Times, Zero(), Xor, Times)
  }

  /** The block operations satisfy every law that encoding and decoding use, whatever the modulus. */
  lemma BlockLaws()
    ensures Laws(BlockSpace())
  {
    hide Xor, Times;
    XorIsGroup();
    forall k: Block, l: Block, m: Block
      ensures Times(Times(k, l), m) == Times(k, Times(l, m))
    {
      TimesAssociates(k, l, m);
    }
    forall k: Block, l: Block
      ensures Times(k, l) == Times(l, k)
    {
      TimesCommutes(k, l);
    }
    forall k: Block, l: Block, m: Block
      ensures Times(k, Xor(l, m)) == Xor(Times(k, l), Times(k, m))
    {
      TimesXor(k, l, m);
    }
    forall k: Block, l: Block, m: Block
      ensures Times(Xor(k, l), m) == Xor(Times(k, m), Times(l, m))
    {
      TimesXor(m, k, l);
    }
    forall k: Block
      ensures Times(k, Unit(0)) == k && Times(Unit(0), k) == k
    {
      TimesOne(k);
    }
  }
}
