/** The blocks are a field: every block that is not zero has order dividing 2^128 - 1. */
module BlockOrder {
  import opened Algebra
  import W = Words
  import opened Gf128
  import opened BlockField
  import opened WordBits
  import opened BlockSquares

  // Climbing, from a to a^2 + a, is additive.

  lemma ClimbXor(a: Block, b: Block)
    ensures Climb(Xor(a, b)) == Xor(Climb(a), Climb(b)) && Climb(Zero()) == Zero() && Climb(Unit(0)) == Zero()
  {
    hide Xor, Times, Unit;
    SquareOfSum(a, b);
    XorPairs(Times(a, a), Times(b, b), a, b);
    ZeroSquare();
    TimesOne(Unit(0));
    XorGroup(Zero(), Zero(), Zero());
    XorGroup(Unit(0), Zero(), Zero());
  }

  lemma {:induction false} ClimbsXor(a: Block, b: Block, k: nat)
    ensures Climbs(Xor(a, b), k) == Xor(Climbs(a, k), Climbs(b, k)) && Climbs(Zero(), k) == Zero()
  {
    hide Xor, Climb;
    if k > 0 {
      ClimbsXor(a, b, k - 1);
      ClimbXor(Climbs(a, k - 1), Climbs(b, k - 1));
    }
  }

  lemma {:induction false} ClimbsClimbs(a: Block, j: nat, k: nat)
    ensures Climbs(Climbs(a, j), k) == Climbs(a, j + k)
  {
    hide Climb;
    if k > 0 {
      ClimbsClimbs(a, j, k - 1);
    }
  }

  /** The block that the certificate starts from. */
  function Start(): Block {
    Eval(TOP)
  }

  lemma StartClimbs(k: nat)
    ensures k == BITS - 1 ==> Climbs(Start(), k) == Unit(0)
    ensures k >= BITS ==> Climbs(Start(), k) == Zero()
  {
    hide Start, Climb, Climbs, Unit, Eval;
    StartIsTop();
    ClimbsToOne();
    if k >= BITS {
      ClimbsClimbs(Start(), BITS - 1, k - (BITS - 1));
      OneClimbs(k - (BITS - 1));
    }
  }

  lemma StartIsTop()
    ensures Start() == Eval(TOP)
  {
    hide Eval;
  }

  lemma {:induction false} OneClimbs(k: nat)
    requires k >= 1
    ensures Climbs(Unit(0), k) == Zero()
  {
    hide Climb, Xor, Unit;
    ClimbXor(Zero(), Zero());
    if k > 1 {
      OneClimbs(k - 1);
    } else {
      assert Climbs(Unit(0), 0) == Unit(0);
    }
  }

  // The climbs of the start are a basis.

  /** The sum of the climbs of the start that c selects among the first k, each of them climbed m times more. */
  function Combination(c: Block, k: nat, m: nat): Block
    requires k <= BITS
  {
    if k == 0 then Zero() else Xor(Combination(c, k - 1, m), Masked(Climbs(Start(), k - 1 + m), c[k - 1]))
  }

  lemma {:induction false} CombinationClimbs(c: Block, k: nat, j: nat, m: nat)
    requires k <= BITS
    ensures Climbs(Combination(c, k, j), m) == Combination(c, k, j + m)
  {
    hide Xor, Start, Climb, Climbs;
    ClimbsXor(Zero(), Zero(), m);
    if k > 0 {
      CombinationClimbs(c, k - 1, j, m);
      var last := Climbs(Start(), k - 1 + j);
      ClimbsXor(Combination(c, k - 1, j), Masked(last, c[k - 1]), m);
      ClimbsClimbs(Start(), k - 1 + j, m);
    }
  }

  lemma {:induction false} CombinationXor(c: Block, d: Block, k: nat, m: nat)
    requires k <= BITS
    ensures Combination(Xor(c, d), k, m) == Xor(Combination(c, k, m), Combination(d, k, m))
  {
    hide Start, Climbs;
    if k == 0 {
      XorGroup(Zero(), Zero(), Zero());
    } else {
      CombinationXor(c, d, k - 1, m);
      var a := Climbs(Start(), k - 1 + m);
      assert Xor(c, d)[k - 1] == (c[k - 1] != d[k - 1]);
      hide Xor;
      MaskedXor(a, c[k - 1], d[k - 1]);
      XorPairs(Combination(c, k - 1, m), Masked(a, c[k - 1]), Combination(d, k - 1, m), Masked(a, d[k - 1]));
    }
  }

  lemma MaskedXor(a: Block, p: bool, q: bool)
    ensures Masked(a, p != q) == Xor(Masked(a, p), Masked(a, q))
  {
    hide Xor;
    XorGroup(a, a, a);
    XorGroup(Zero(), a, a);
    XorGroup(Zero(), Zero(), a);
  }

  /** If the terms before j are not selected, BITS - 1 - j more climbs leave term j alone. */
  lemma {:induction false} FirstTerm(c: Block, k: nat, j: nat)
    requires k <= BITS && j < BITS && forall i :: 0 <= i < j ==> !c[i]
    ensures Combination(c, k, BITS - 1 - j) == if j < k && c[j] then Unit(0) else Zero()
  {
    hide Xor, Unit, Start, Climbs;
    XorGroup(Zero(), Zero(), Zero());
    XorGroup(Unit(0), Zero(), Zero());
    if k > 0 {
      FirstTerm(c, k - 1, j);
      StartClimbs(k - 1 + (BITS - 1 - j));
    }
  }

  lemma OneIsNotZero()
    ensures Unit(0) != Zero()
  {
    assert Unit(0)[0] != Zero()[0];
  }

  /** A combination that is zero after m more climbs selects nothing but the last m terms. */
  lemma {:induction false} NothingSelected(c: Block, m: nat, j: nat)
    requires j + m <= BITS && Combination(c, BITS, m) == Zero()
    ensures forall i :: 0 <= i < j ==> !c[i]
  {
    hide Xor, Unit, Combination, Climb, Climbs, Start;
    if j > 0 {
      NothingSelected(c, m, j - 1);
      CombinationClimbs(c, BITS, m, BITS - j - m);
      ClimbsXor(Zero(), Zero(), BITS - j - m);
      FirstTerm(c, BITS, j - 1);
      OneIsNotZero();
    }
  }

  lemma CombinationInjective(c: Block, d: Block)
    requires Combination(c, BITS, 0) == Combination(d, BITS, 0)
    ensures c == d
  {
    hide Combination, Xor;
    CombinationXor(c, d, BITS, 0);
    XorGroup(Combination(c, BITS, 0), c, c);
    NothingSelected(Xor(c, d), 0, BITS);
    NoDifference(c, d);
  }

  lemma NoDifference(c: Block, d: Block)
    requires forall i :: 0 <= i < BITS ==> !Xor(c, d)[i]
    ensures c == d
  {
    assert forall i :: 0 <= i < BITS ==> Xor(c, d)[i] == (c[i] != d[i]);
  }

  /** All bit sequences of length n. */
  ghost function AllBits(n: nat): set<seq<bool>> {
    if n == 0 then {[]} else Extended(AllBits(n - 1), false) + Extended(AllBits(n - 1), true)
  }

  ghost function Extended(shorter: set<seq<bool>>, bit: bool): set<seq<bool>> {
    set b | b in shorter :: b + [bit]
  }

  lemma {:induction false} AllBitsExact(n: nat)
    ensures forall b: seq<bool> :: b in AllBits(n) <==> |b| == n
  {
    if n > 0 {
      AllBitsExact(n - 1);
      forall b: seq<bool> | |b| == n
        ensures b in AllBits(n)
      {
        assert b == b[..n - 1] + [b[n - 1]] && b[..n - 1] in AllBits(n - 1);
        assert b in Extended(AllBits(n - 1), b[n - 1]);
      }
    }
  }

  ghost function Combinations(cs: set<Block>): set<Block> {
    set c | c in cs :: Combination(c, BITS, 0)
  }

  lemma {:induction false} CombinationsSize(cs: set<Block>)
    ensures |Combinations(cs)| == |cs|
  {
    hide Combination;
    if cs != {} {
      var c :| c in cs;
      var rest := cs - {c};
      CombinationsSize(rest);
      forall d | d in rest
        ensures Combination(d, BITS, 0) != Combination(c, BITS, 0)
      {
        if Combination(d, BITS, 0) == Combination(c, BITS, 0) {
          CombinationInjective(d, c);
        }
      }
      assert Combinations(cs) == Combinations(rest) + {Combination(c, BITS, 0)};
      assert Combination(c, BITS, 0) !in Combinations(rest);
    } else {
      assert Combinations(cs) == {};
    }
  }

  /** There are as many combinations as blocks, so that every block is one. */
  lemma EveryBlockCombines(a: Block) returns (c: Block)
    ensures Combination(c, BITS, 0) == a
  {
    hide Combination, AllBits;
    var all: set<Block> := AllBlocks();
    CombinationsSize(all);
    var made := Combinations(all);
    assert forall b :: b in made ==> b in all;
    SameSize(made, all);
    assert a in made;
    c :| c in all && Combination(c, BITS, 0) == a;
  }

  ghost function AllBlocks(): (all: set<Block>)
    ensures forall b: Block :: b in all
  {
    AllBitsExact(BITS);
    set b | b in AllBits(BITS) :: b
  }

  lemma SameSize(a: set<Block>, b: set<Block>)
    requires a <= b && |a| == |b|
    ensures a == b
  {
    assert b == a + (b - a);
  }

  // Squaring 128 times changes nothing.

  function Squares(a: Block, k: nat): Block {
    if k == 0 then a else Times(Squares(a, k - 1), Squares(a, k - 1))
  }

  lemma {:induction false} SquaresSquares(a: Block, j: nat, k: nat)
    ensures Squares(Squares(a, j), k) == Squares(a, j + k)
  {
    hide Times;
    if k > 0 {
      SquaresSquares(a, j, k - 1);
    }
  }

  /** Squaring 2^k times is climbing 2^k times and adding: the mixed terms cancel. */
  lemma {:induction false} SquaresAreClimbs(a: Block, k: nat)
    ensures Squares(a, W.Pow2(k)) == Xor(Climbs(a, W.Pow2(k)), a)
    decreases k
  {
    hide Xor, Times, Climbs, Squares;
    if k == 0 {
      OneSquare(a);
    } else {
      var n := W.Pow2(k - 1);
      assert W.Pow2(k) == n + n;
      hide W.Pow2;
      SquaresAreClimbs(a, k - 1);
      SquaresAreClimbs(Squares(a, n), k - 1);
      SquaresSquares(a, n, n);
      var x, y := Climbs(a, n), Climbs(a, n + n);
      ClimbsXor(x, a, n);
      ClimbsClimbs(a, n, n);
      XorGroup(y, x, Xor(x, a));
      XorGroup(x, x, a);
      XorGroup(a, a, a);
    }
  }

  lemma OneSquare(a: Block)
    ensures W.Pow2(0) == 1 && Squares(a, 1) == Xor(Climbs(a, 1), a)
  {
    hide Xor, Times;
    assert Squares(a, 1) == Times(Squares(a, 0), Squares(a, 0)) && Squares(a, 0) == a;
    assert Climbs(a, 1) == Climb(Climbs(a, 0)) && Climbs(a, 0) == a;
    XorGroup(Times(a, a), a, a);
    XorGroup(a, a, a);
  }

  lemma AllClimbed(a: Block)
    ensures Climbs(a, BITS) == Zero()
  {
    hide Combination, Climbs;
    var c := EveryBlockCombines(a);
    CombinationClimbs(c, BITS, 0, BITS);
    FarCombination(c, BITS);
  }

  lemma {:induction false} FarCombination(c: Block, k: nat)
    requires k <= BITS
    ensures Combination(c, k, BITS) == Zero()
  {
    hide Xor, Start, Climbs;
    XorGroup(Zero(), Zero(), Zero());
    if k > 0 {
      FarCombination(c, k - 1);
      StartClimbs(k - 1 + BITS);
    }
  }

  /** The order of the field: a^(2^128) = a, for every block. */
  lemma SquaredBack(a: Block)
    ensures Squares(a, BITS) == a
  {
    hide Squares, Climbs, Xor;
    assert W.Pow2(7) == BITS;
    SquaresAreClimbs(a, 7);
    AllClimbed(a);
    XorGroup(a, Zero(), Zero());
  }

  // Only zero and one are their own squares.

  lemma FixedBySquaring(e: Block)
    requires Times(e, e) == e
    ensures e == Zero() || e == Unit(0)
  {
    hide Times, Unit, Xor, Combination, Climbs;
    var c := EveryBlockCombines(e);
    ClimbsOnce(e);
    CombinationClimbs(c, BITS, 0, 1);
    NothingSelected(c, 1, BITS - 1);
    LastAlone(c);
  }

  lemma ClimbsOnce(e: Block)
    requires Times(e, e) == e
    ensures Climbs(e, 1) == Zero()
  {
    hide Times, Xor;
    assert Climbs(e, 1) == Climb(Climbs(e, 0)) && Climbs(e, 0) == e;
    XorGroup(e, e, e);
  }

  lemma LastAlone(c: Block)
    requires forall i :: 0 <= i < BITS - 1 ==> !c[i]
    ensures Combination(c, BITS, 0) == if c[BITS - 1] then Unit(0) else Zero()
  {
    FirstTerm(c, BITS, BITS - 1);
  }

  // The field laws.

  lemma {:induction false} SquaresArePowers(a: Block, k: nat)
    ensures Squares(a, k) == Pow(BlockSpace(), a, W.Pow2(k))
  {
    hide Times, Laws, BlockSpace;
    BlockLaws();
    TimesOfSpace();
    if k == 0 {
      PowOne(BlockSpace(), a);
    } else {
      SquaresArePowers(a, k - 1);
      SquareStep(BlockSpace(), a, k - 1);
    }
  }

  lemma TimesOfSpace()
    ensures BlockSpace().times == Times && BlockSpace().zero == Zero() && BlockSpace().one == Unit(0)
  {}

  /** A block that is not zero, to the power 2^128 - 1, is one. */
  lemma BlockOrderIsOne(a: Block)
    requires a != Zero()
    ensures Order(BlockSpace(), a) == Unit(0)
  {
    hide Times, Laws, BlockSpace, Tower, Pow, W.Pow2, Unit;
    var s, n := BlockSpace(), Tower(7);
    BlockLaws();
    TimesOfSpace();
    TowerSeven();
    SquaresArePowers(a, BITS);
    SquaredBack(a);
    assert Pow(s, a, n) == a;
    var e := Pow(s, a, n - 1);
    PowOne(s, a);
    PowPlus(s, a, n - 1, 1);
    PowPlus(s, a, n - 1, n - 1);
    PowPlus(s, a, n - 2, n);
    PowPlus(s, a, n - 2, 1);
    FixedBySquaring(e);
    MulZero(a);
  }

  /** The 128-bit blocks satisfy all laws of the field that the inversion relies on. */
  lemma BlocksAreAField()
    ensures FieldLaws(BlockSpace())
  {
    hide Laws, Order, BlockSpace, Unit;
    BlockLaws();
    TimesOfSpace();
    OneIsNotZero();
    forall a: Block | a != Zero()
      ensures Order(BlockSpace(), a) == Unit(0)
    {
      BlockOrderIsOne(a);
    }
  }

  lemma {:induction false} SamePowers<V>(s: Space<Block, V>, a: Block, e: nat)
    requires s.one == Unit(0) && s.times == Times
    ensures Pow(s, a, e) == Pow(BlockSpace(), a, e)
  {
    hide Times, Unit;
    if e > 0 {
      SamePowers(s, a, e - 1);
    }
  }

  /** So do they when they act on any other values. */
  lemma BlocksActAsAField<V(!new)>(s: Space<Block, V>)
    requires Laws(s) && s.zero == Zero() && s.one == Unit(0) && s.times == Times
    ensures FieldLaws(s)
  {
    hide Laws, BlockSpace, Unit, Times, Pow, Tower;
    OneIsNotZero();
    TimesOfSpace();
    forall a: Block | a != Zero()
      ensures Order(s, a) == Unit(0)
    {
      BlockOrderIsOne(a);
      SamePowers(s, a, Tower(7) - 1);
    }
  }
}
