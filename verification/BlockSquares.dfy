/** Squaring of blocks on 128-bit words, and a certificate: adding up the 128 squarings of x^127 gives one. */
module BlockSquares {
  import opened BlockField
  import opened BlockProduct
  import opened WordBits

  /** The value of a word as a polynomial in x, the lowest bit being the constant term. */
  function Eval(v: bv128): Block
    decreases v
  {
    if v == 0 then Zero() else Xor(Masked(Unit(0), Odd(v)), Twice(Eval(Down(v))))
  }

  lemma EvalStep(v: bv128)
    ensures Eval(v) == Xor(Masked(Unit(0), Odd(v)), Twice(Eval(Down(v))))
  {
    hide Xor, Twice;
    TwiceXor(Zero(), Zero());
    XorGroup(Zero(), Zero(), Zero());
  }

  lemma EvalOne()
    ensures Eval(0) == Zero() && Eval(1) == Unit(0)
  {
    hide Xor, Twice, Unit;
    EvalStep(1);
    assert Down(1) == 0 && Odd(1);
    TwiceXor(Zero(), Zero());
    XorGroup(Unit(0), Zero(), Zero());
  }

  /** Adding words adds their values. */
  lemma {:induction false} EvalXor(v: bv128, w: bv128)
    ensures Eval(Add(v, w)) == Xor(Eval(v), Eval(w))
    decreases Length(v)
  {
    hide Xor, Twice, Unit, Add, Down, Odd, Eval, Length;
    if v == 0 {
      AddZero(w);
      EvalOne();
      XorGroup(Eval(w), Zero(), Zero());
    } else {
      LengthDown(v);
      EvalXor(Down(v), Down(w));
      EvalXorStep(v, w);
    }
  }

  lemma EvalXorStep(v: bv128, w: bv128)
    requires Eval(Add(Down(v), Down(w))) == Xor(Eval(Down(v)), Eval(Down(w)))
    ensures Eval(Add(v, w)) == Xor(Eval(v), Eval(w))
  {
    hide Xor, Twice, Unit, Add, Down, Odd, Eval, Masked;
    AddBits(v, w);
    EvalStep(v);
    EvalStep(w);
    EvalStep(Add(v, w));
    MaskedBits(Odd(v), Odd(w));
    XorPairs(Masked(Unit(0), Odd(v)), Twice(Eval(Down(v))), Masked(Unit(0), Odd(w)), Twice(Eval(Down(w))));
    TwiceXor(Eval(Down(v)), Eval(Down(w)));
  }

  lemma MaskedBits(p: bool, q: bool)
    ensures Masked(Unit(0), p != q) == Xor(Masked(Unit(0), p), Masked(Unit(0), q))
  {
    hide Xor, Unit;
    var one := Unit(0);
    XorGroup(one, one, one);
    XorGroup(Zero(), one, one);
    XorGroup(Zero(), Zero(), one);
  }

  /** Shifting a word up without losing a bit is multiplying by x. */
  lemma EvalShift1(v: bv128)
    requires v >> 127 == 0
    ensures Eval(v << 1) == Shift(Eval(v), 1)
  {
    hide Xor, Unit, Twice, Eval, Down, Odd, Shift;
    Unshift(v);
    EvalStep(v << 1);
    XorGroup(Twice(Eval(v)), Zero(), Zero());
    ShiftOnce(Eval(v));
  }

  lemma EvalShift2(v: bv128)
    requires v >> 126 == 0
    ensures Eval(v << 2) == Shift(Eval(v), 2)
  {
    hide Eval, Twice, Shift;
    assert v >> 127 == 0 && (v << 1) >> 127 == 0 && (v << 1) << 1 == v << 2;
    EvalShift1(v);
    EvalShift1(v << 1);
    ShiftShift(Eval(v), 1, 1);
  }

  lemma EvalShift4(v: bv128)
    requires v >> 124 == 0
    ensures Eval(v << 4) == Shift(Eval(v), 4)
  {
    hide Eval, Twice, Shift;
    assert v >> 126 == 0 && (v << 2) >> 126 == 0 && (v << 2) << 2 == v << 4;
    EvalShift2(v);
    EvalShift2(v << 2);
    ShiftShift(Eval(v), 2, 2);
  }

  lemma EvalShift8(v: bv128)
    requires v >> 120 == 0
    ensures Eval(v << 8) == Shift(Eval(v), 8)
  {
    hide Eval, Twice, Shift;
    assert v >> 124 == 0 && (v << 4) >> 124 == 0 && (v << 4) << 4 == v << 8;
    EvalShift4(v);
    EvalShift4(v << 4);
    ShiftShift(Eval(v), 4, 4);
  }

  lemma EvalShift16(v: bv128)
    requires v >> 112 == 0
    ensures Eval(v << 16) == Shift(Eval(v), 16)
  {
    hide Eval, Twice, Shift;
    assert v >> 120 == 0 && (v << 8) >> 120 == 0 && (v << 8) << 8 == v << 16;
    EvalShift8(v);
    EvalShift8(v << 8);
    ShiftShift(Eval(v), 8, 8);
  }

  lemma EvalShift32(v: bv128)
    requires v >> 96 == 0
    ensures Eval(v << 32) == Shift(Eval(v), 32)
  {
    hide Eval, Twice, Shift;
    assert v >> 112 == 0 && (v << 16) >> 112 == 0 && (v << 16) << 16 == v << 32;
    EvalShift16(v);
    EvalShift16(v << 16);
    ShiftShift(Eval(v), 16, 16);
  }

  lemma EvalShift64(v: bv128)
    requires v >> 64 == 0
    ensures Eval(v << 64) == Shift(Eval(v), 64)
  {
    hide Eval, Twice, Shift;
    assert v >> 96 == 0 && (v << 32) >> 96 == 0 && (v << 32) << 32 == v << 64;
    EvalShift32(v);
    EvalShift32(v << 32);
    ShiftShift(Eval(v), 32, 32);
  }

  // Multiplication by x, with the reduction.

  lemma EvalTop()
    ensures Eval(TOP) == Shift(Unit(0), BITS - 1)
  {
    hide Eval, Shift, Unit, Twice;
    EvalOne();
    EvalShift64(1);
    EvalShift32(0x10000000000000000);
    EvalShift16(0x1000000000000000000000000);
    EvalShift8(0x10000000000000000000000000000);
    EvalShift4(0x1000000000000000000000000000000);
    EvalShift2(0x10000000000000000000000000000000);
    EvalShift1(0x40000000000000000000000000000000);
    var one := Unit(0);
    ShiftShift(one, 64, 32);
    ShiftShift(one, 96, 16);
    ShiftShift(one, 112, 8);
    ShiftShift(one, 120, 4);
    ShiftShift(one, 124, 2);
    ShiftShift(one, 126, 1);
  }

  /** The value of the low part of the modulus. */
  lemma EvalTail()
    ensures Eval(0x87) == Tail()
  {
    hide Eval, Shift, Twice;
    EvalOne();
    EvalShift1(1);
    EvalShift2(1);
    EvalShift4(1);
    EvalShift2(0x10);
    EvalShift1(0x40);
    ShiftShift(Unit(0), 4, 2);
    ShiftShift(Unit(0), 6, 1);
    assert Add(0x1, 0x2) == 0x3 && Add(0x3, 0x4) == 0x7 && Add(0x7, 0x80) == 0x87;
    EvalXor(0x1, 0x2);
    EvalXor(0x3, 0x4);
    EvalXor(0x7, 0x80);
    ShiftOne(1);
    ShiftOne(2);
    ShiftOne(7);
    TailTerms();
  }

  lemma TailTerms()
    ensures Tail() == Xor(Xor(Xor(Unit(0), Unit(1)), Unit(2)), Unit(7))
  {}

  lemma EvalTwice(v: bv128)
    ensures Eval(TwiceWord(v)) == Twice(Eval(v))
  {
    hide Eval, Twice, Unit, Xor, Add, LowPart, TwiceWord, Shift;
    var low := LowPart(v);
    TwiceParts(v);
    var top, carry := if HasTop(v) then TOP else 0, if HasTop(v) then 0x87 else 0;
    EvalXor(DoubleLow(v), carry);
    EvalDoubleLow(v);
    EvalXor(low, top);
    EvalTop();
    EvalTail();
    EvalOne();
    TopReduced();
    ShiftOnce(Eval(low));
    ShiftOnce(Shift(Unit(0), BITS - 1));
    ShiftShift(Unit(0), BITS - 1, 1);
    TwiceXor(Eval(low), Eval(top));
    TwiceXor(Zero(), Zero());
  }

  lemma EvalDoubleLow(v: bv128)
    ensures Eval(DoubleLow(v)) == Shift(Eval(LowPart(v)), 1)
  {
    hide Eval, Shift, LowPart;
    LowFits(v);
    EvalShift1(LowPart(v));
  }

  lemma ShiftOnce(a: Block)
    ensures Shift(a, 1) == Twice(a)
  {
    assert Shift(a, 0) == a;
  }

  // Squaring: the lower half spreads out, so does the upper half, which is then multiplied by x^128.

  lemma EvalEven(v: bv128)
    requires IsHalf(v)
    ensures Eval(Even(v)) == Shift(Eval(Down(v)), 1)
  {
    hide Eval, Shift, Down, Even, IsHalf;
    HalfFits(v);
    EvalShift1(Down(v));
  }

  lemma EvalSpreadEven(v: bv128)
    requires IsHalf(v)
    ensures Eval(Spread(Even(v))) == Shift(Eval(Spread(Down(v))), 2)
  {
    hide Eval, Shift, Spread, Down, Even, IsHalf;
    HalfFits(v);
    SpreadDoubles(Down(v));
    EvalShift2(Spread(Down(v)));
  }

  lemma SquareOfSum(a: Block, b: Block)
    ensures Times(Xor(a, b), Xor(a, b)) == Xor(Times(a, a), Times(b, b))
  {
    hide Xor, Times;
    TimesXor(Xor(a, b), a, b);
    TimesXor(a, a, b);
    TimesXor(b, a, b);
    TimesCommutes(a, b);
    XorPairs(Times(a, a), Times(a, b), Times(a, b), Times(b, b));
    var m := Times(a, b);
    XorGroup(Times(a, a), m, Xor(m, Times(b, b)));
    XorGroup(m, m, Times(b, b));
    XorGroup(Times(b, b), m, m);
  }

  lemma SquareOfShift(a: Block, k: nat)
    ensures Times(Shift(a, k), Shift(a, k)) == Shift(Times(a, a), 2 * k)
  {
    hide Shift, Times;
    ShiftMul(a, Shift(a, k), k);
    TimesCommutes(a, Shift(a, k));
    ShiftMul(a, a, k);
    ShiftShift(Times(a, a), k, k);
  }

  /** Spreading a half word squares its value. */
  lemma {:induction false} EvalSpread(v: bv128)
    requires IsHalf(v)
    ensures Eval(Spread(v)) == Times(Eval(v), Eval(v))
    decreases Length(v)
  {
    hide Length, Eval, Spread, Shift, Xor, Times, Unit, Add, Even, LastBit, Down, IsHalf;
    EvalOne();
    TimesOne(Unit(0));
    ZeroSquare();
    HalfParts(v);
    if v == 0 {
      SpreadZero();
    } else {
      EvalSpread(Down(v));
      EvalEven(v);
      EvalSpreadEven(v);
      SpreadXor(Even(v), LastBit(v));
      EvalXor(Spread(Even(v)), LastBit(v));
      EvalXor(Even(v), LastBit(v));
      SquareOfSum(Eval(Even(v)), Eval(LastBit(v)));
      SquareOfShift(Eval(Down(v)), 1);
    }
  }

  lemma ZeroSquare()
    ensures Times(Zero(), Zero()) == Zero()
  {
    MulZero(Zero());
  }

  lemma EvalFold(h: bv128)
    ensures Eval(FoldWord(h)) == Shift(Eval(h), BITS)
  {
    hide Eval, TwiceWord, Xor, Twice, Unit, Times, Shift, Add;
    var h1 := TwiceWord(h);
    var h2 := TwiceWord(h1);
    var h3 := TwiceWord(h2);
    var h4 := TwiceWord(h3);
    var h5 := TwiceWord(h4);
    var h6 := TwiceWord(h5);
    var h7 := TwiceWord(h6);
    EvalTwice(h);
    EvalTwice(h1);
    EvalTwice(h2);
    EvalTwice(h3);
    EvalTwice(h4);
    EvalTwice(h5);
    EvalTwice(h6);
    EvalXor(h, h1);
    EvalXor(Add(h, h1), h2);
    EvalXor(Add(Add(h, h1), h2), h7);
    var a := Eval(h);
    SevenShifts(a);
    ShiftByTail(a);
  }

  lemma SevenShifts(a: Block)
    ensures Shift(a, 0) == a && Shift(a, 1) == Twice(a) && Shift(a, 2) == Twice(Twice(a))
    ensures Shift(a, 7) == Twice(Twice(Twice(Twice(Twice(Twice(Twice(a)))))))
  {
    hide Twice;
    assert Shift(a, 3) == Twice(Shift(a, 2)) && Shift(a, 2) == Twice(Shift(a, 1));
    assert Shift(a, 5) == Twice(Shift(a, 4)) && Shift(a, 4) == Twice(Shift(a, 3));
    assert Shift(a, 7) == Twice(Shift(a, 6)) && Shift(a, 6) == Twice(Shift(a, 5));
  }

  /** x^128 is x^7 + x^2 + x + 1. */
  lemma ShiftByTail(a: Block)
    ensures Shift(a, BITS) == Xor(Xor(Xor(a, Shift(a, 1)), Shift(a, 2)), Shift(a, 7))
  {
    hide Shift, Xor, Times, Unit, Tail;
    var one := Unit(0);
    TimesOne(a);
    ShiftMul(one, a, BITS);
    TopReduced();
    TailTerms();
    TimesXor(a, Xor(Xor(one, Unit(1)), Unit(2)), Unit(7));
    TimesXor(a, Xor(one, Unit(1)), Unit(2));
    TimesXor(a, one, Unit(1));
    UnitCommutes(a, 1);
    UnitCommutes(a, 2);
    UnitCommutes(a, 7);
  }

  lemma EvalRaised(v: bv128)
    ensures Eval(Raised(v)) == Shift(Eval(HighHalf(v)), 64)
  {
    hide Eval, Shift, HighHalf;
    Halves(v);
    EvalShift64(HighHalf(v));
  }

  /** The word squared has the squared value. */
  lemma EvalSquare(v: bv128)
    ensures Eval(SquareWord(v)) == Times(Eval(v), Eval(v))
  {
    hide Eval, Spread, FoldWord, Shift, Xor, Times, LowHalf, HighHalf, Raised, Add, IsHalf;
    var low, high := LowHalf(v), HighHalf(v);
    Halves(v);
    EvalXor(low, Raised(v));
    EvalRaised(v);
    SquareOfSum(Eval(low), Eval(Raised(v)));
    SquareOfShift(Eval(high), 64);
    EvalXor(Spread(low), FoldWord(Spread(high)));
    EvalSpread(low);
    EvalSpread(high);
    EvalFold(Spread(high));
  }

  // The certificate.

  /** The square of a block and the block. */
  function Climb(a: Block): Block {
    Xor(Times(a, a), a)
  }

  function Climbs(a: Block, k: nat): Block {
    if k == 0 then a else Climb(Climbs(a, k - 1))
  }

  lemma EvalClimb(v: bv128)
    ensures Eval(ClimbWord(v)) == Climb(Eval(v))
  {
    hide Eval, SquareWord, Xor, Times, Add;
    EvalSquare(v);
    EvalXor(SquareWord(v), v);
  }

  ghost predicate Reached(v: bv128, k: nat) {
    Eval(v) == Climbs(Eval(TOP), k)
  }

  lemma ReachStart()
    ensures Reached(TOP, 0)
  {
    hide Eval;
  }

  /** One more climb, by a computation on words. */
  lemma Reach(v: bv128, w: bv128, k: nat)
    requires Reached(v, k) && ClimbWord(v) == w
    ensures Reached(w, k + 1)
  {
    hide Eval, Climb, ClimbWord;
    EvalClimb(v);
  }

  lemma Reach4()
    ensures Reached(0x545b0001000000000000000000010069, 4)
  {
    hide Reached;
    ReachStart();
    Reach(0x80000000000000000000000000000000, 0x40000000000000000000000000001067, 0);
    Reach(0x40000000000000000000000000001067, 0x3000000000000000000000000100004a, 1);
    Reach(0x3000000000000000000000000100004a, 0xab000000000000000001000001001100, 2);
    Reach(0xab000000000000000001000001001100, 0x545b0001000000000000000000010069, 3);
  }

  lemma Reach8()
    ensures Reached(0x115b061dfec7a3cd51e5249aa93f39df, 8)
  {
    hide Reached;
    Reach4();
    Reach(0x545b0001000000000000000000010069, 0xab23d45a000000870000000100011010, 4);
    Reach(0xab23d45a000000870000000100011010, 0x547acae83f78d45a000000000120ca92, 5);
    Reach(0x547acae83f78d45a000000000120ca92, 0xab00021dac8f5998b020cee96e1c5b72, 6);
    Reach(0xab00021dac8f5998b020cee96e1c5b72, 0x115b061dfec7a3cd51e5249aa93f39df, 7);
  }

  lemma Reach12()
    ensures Reached(0xc34b9a234d5f214cbab866f2da5d5fd8, 12)
  {
    hide Reached;
    Reach8();
    Reach(0x115b061dfec7a3cd51e5249aa93f39df, 0x87d58657f0bb4c9515219b0772ccf1bd, 8);
    Reach(0x87d58657f0bb4c9515219b0772ccf1bd, 0x4c06bd807b9ab1402b06b3047e5ceb7c, 9);
    Reach(0x4c06bd807b9ab1402b06b3047e5ceb7c, 0x11f3b7db4c89715af628c6ab71968a14, 10);
    Reach(0x11f3b7db4c89715af628c6ab71968a14, 0xc34b9a234d5f214cbab866f2da5d5fd8, 11);
  }

  lemma Reach16()
    ensures Reached(0x92f5319035acedbaaab4d02e8a509602, 16)
  {
    hide Reached;
    Reach12();
    Reach(0xc34b9a234d5f214cbab866f2da5d5fd8, 0x349c8c193d956adbb2c3ab8ad7874377, 12);
    Reach(0x349c8c193d956adbb2c3ab8ad7874377, 0xe2c9b28d90608cda51c0a46288774337, 13);
    Reach(0xe2c9b28d90608cda51c0a46288774337, 0x5dfd73e98d4d71c8568add5671eb47af, 14);
    Reach(0x5dfd73e98d4d71c8568add5671eb47af, 0x92f5319035acedbaaab4d02e8a509602, 15);
  }

  lemma Reach20()
    ensures Reached(0x046cef282228ece40b2eb2c56bfbcc98, 20)
  {
    hide Reached;
    Reach16();
    Reach(0x92f5319035acedbaaab4d02e8a509602, 0x93865775ff0aaeec792434b54e50febd, 16);
    Reach(0x93865775ff0aaeec792434b54e50febd, 0xc37d990107fb0821695b064aec832e3b, 17);
    Reach(0xc37d990107fb0821695b064aec832e3b, 0x65ad4a5261a818e237cb4e14c91523a6, 18);
    Reach(0x65ad4a5261a818e237cb4e14c91523a6, 0x046cef282228ece40b2eb2c56bfbcc98, 19);
  }

  lemma Reach24()
    ensures Reached(0x419e20def1e119119b8ed87ac733dad9, 24)
  {
    hide Reached;
    Reach20();
    Reach(0x046cef282228ece40b2eb2c56bfbcc98, 0x0c53aee7e00581370175da6bbe3029a8, 20);
    Reach(0x0c53aee7e00581370175da6bbe3029a8, 0x25ea4e4e46c633b2e821d7bd7af4fc03, 21);
    Reach(0x25ea4e4e46c633b2e821d7bd7af4fc03, 0x6576c59b4c772d47872038c3b61ca414, 22);
    Reach(0x6576c59b4c772d47872038c3b61ca414, 0x419e20def1e119119b8ed87ac733dad9, 23);
  }

  lemma Reach28()
    ensures Reached(0x9bb8594010a46d80f7b693b0d8634030, 28)
  {
    hide Reached;
    Reach24();
    Reach(0x419e20def1e119119b8ed87ac733dad9, 0x707d0c24bc8810d2e03771f830300827, 24);
    Reach(0x707d0c24bc8810d2e03771f830300827, 0xcf77cb06803b51c197a69538b7593c18, 25);
    Reach(0xcf77cb06803b51c197a69538b7593c18, 0x15436ed052715ecc12b13c2a45a79980, 26);
    Reach(0x15436ed052715ecc12b13c2a45a79980, 0x9bb8594010a46d80f7b693b0d8634030, 27);
  }

  lemma Reach32()
    ensures Reached(0x0cd7ac6598233eb055ff471b0f630338, 32)
  {
    hide Reached;
    Reach28();
    Reach(0x9bb8594010a46d80f7b693b0d8634030, 0xaad5669c87ee588021d553cf8d759557, 28);
    Reach(0xaad5669c87ee588021d553cf8d759557, 0x51210870f0a66644ab44c17a1a85552b, 29);
    Reach(0x51210870f0a66644ab44c17a1a85552b, 0xe2e104e7816d982b8123570d6df02d26, 30);
    Reach(0xe2e104e7816d982b8123570d6df02d26, 0x0cd7ac6598233eb055ff471b0f630338, 31);
  }

  lemma Reach36()
    ensures Reached(0xc23d66123006d3e037aef0ae2ee0db0d, 36)
  {
    hide Reached;
    Reach32();
    Reach(0x0cd7ac6598233eb055ff471b0f630338, 0x345fc4f87d8c5b2333684d87bfe95d78, 32);
    Reach(0x345fc4f87d8c5b2333684d87bfe95d78, 0xa2220cbad58611fcb42bf07e7ae157ad, 33);
    Reach(0xa2220cbad58611fcb42bf07e7ae157ad, 0x392c16e3a9157c5d9eb96e13ec580025, 34);
    Reach(0x392c16e3a9157c5d9eb96e13ec580025, 0xc23d66123006d3e037aef0ae2ee0db0d, 35);
  }

  lemma Reach40()
    ensures Reached(0x28888e09fb6434eb013a78855f1da84f, 40)
  {
    hide Reached;
    Reach36();
    Reach(0xc23d66123006d3e037aef0ae2ee0db0d, 0x7536907b036a12aaa8faaeeb4a156303, 36);
    Reach(0x7536907b036a12aaa8faaeeb4a156303, 0xd283547200348eb4ba2fe026db2f99ec, 37);
    Reach(0xd283547200348eb4ba2fe026db2f99ec, 0xa2fa92b4ab4e63bceb68772271e18a93, 38);
    Reach(0xa2fa92b4ab4e63bceb68772271e18a93, 0x28888e09fb6434eb013a78855f1da84f, 39);
  }

  lemma Reach44()
    ensures Reached(0x683cda75934aa6d846fba2e2da2c8d15, 44)
  {
    hide Reached;
    Reach40();
    Reach(0x28888e09fb6434eb013a78855f1da84f, 0x15686aac05885596183e1da68806364f, 40);
    Reach(0x15686aac05885596183e1da68806364f, 0x9bd522324b26e43250a8fc7a72c46b76, 41);
    Reach(0x9bd522324b26e43250a8fc7a72c46b76, 0xeea759870068686216f5ba2dc2f3f719, 42);
    Reach(0xeea759870068686216f5ba2dc2f3f719, 0x683cda75934aa6d846fba2e2da2c8d15, 43);
  }

  lemma Reach48()
    ensures Reached(0xae793a58b09cd22e66d80b1db0b1d2b0, 48)
  {
    hide Reached;
    Reach44();
    Reach(0x683cda75934aa6d846fba2e2da2c8d15, 0x35ea3da9c398110a522cf54d4c389ff2, 44);
    Reach(0x35ea3da9c398110a522cf54d4c389ff2, 0xb732b627249dfc35f0c696cd8aeae824, 45);
    Reach(0xb732b627249dfc35f0c696cd8aeae824, 0xb3db7f0c34e7ba8da4d3ac95dc186eaa, 46);
    Reach(0xb3db7f0c34e7ba8da4d3ac95dc186eaa, 0xae793a58b09cd22e66d80b1db0b1d2b0, 47);
  }

  lemma Reach52()
    ensures Reached(0x14aad500d2effd51ec7612a506a3d70c, 52)
  {
    hide Reached;
    Reach48();
    Reach(0xae793a58b09cd22e66d80b1db0b1d2b0, 0x4dcba15d080d059c78f92085d4abb175, 48);
    Reach(0x4dcba15d080d059c78f92085d4abb175, 0x01956764d0829bba08294df7997cceec, 49);
    Reach(0x01956764d0829bba08294df7997cceec, 0x01732cd8a632aaf67e499a9aad50e260, 50);
    Reach(0x01732cd8a632aaf67e499a9aad50e260, 0x14aad500d2effd51ec7612a506a3d70c, 51);
  }

  lemma Reach56()
    ensures Reached(0xa7502fad520cefd583daee1904c35518, 56)
  {
    hide Reached;
    Reach52();
    Reach(0x14aad500d2effd51ec7612a506a3d70c, 0xcfa93fe1ec1cb969d955d1a0558920db, 52);
    Reach(0xcfa93fe1ec1cb969d955d1a0558920db, 0x05e0d3b50d1d51c54df43f722bc42886, 53);
    Reach(0x05e0d3b50d1d51c54df43f722bc42886, 0x1d6d2a8c3df017366086c15dd82ad065, 54);
    Reach(0x1d6d2a8c3df017366086c15dd82ad065, 0xa7502fad520cefd583daee1904c35518, 55);
  }

  lemma Reach60()
    ensures Reached(0x3c7901e921337f281c734535d0bca95c, 60)
  {
    hide Reached;
    Reach56();
    Reach(0xa7502fad520cefd583daee1904c35518, 0x31b689eb31501bab76d6978792d07ac6, 56);
    Reach(0x31b689eb31501bab76d6978792d07ac6, 0xbf0689b29129d4e7ac5d318723ecd487, 57);
    Reach(0xbf0689b29129d4e7ac5d318723ecd487, 0x8b7d92ae754ccdcfefdd58b94da72310, 58);
    Reach(0x8b7d92ae754ccdcfefdd58b94da72310, 0x3c7901e921337f281c734535d0bca95c, 59);
  }

  lemma Reach64()
    ensures Reached(0x3ca5cfdd9817d112e61cda27c605fdb8, 64)
  {
    hide Reached;
    Reach60();
    Reach(0x3c7901e921337f281c734535d0bca95c, 0x8f93deab318ef77c51f699f454d484c2, 60);
    Reach(0x8f93deab318ef77c51f699f454d484c2, 0x7598ce0d6c405d35db40236335250611, 61);
    Reach(0x7598ce0d6c405d35db40236335250611, 0xc70bb8e4f3e9600d9be9577aeb0491d1, 62);
    Reach(0xc70bb8e4f3e9600d9be9577aeb0491d1, 0x3ca5cfdd9817d112e61cda27c605fdb8, 63);
  }

  lemma Reach68()
    ensures Reached(0x113904d413b3f6359f5e1f8f9a0c15e2, 68)
  {
    hide Reached;
    Reach64();
    Reach(0x3ca5cfdd9817d112e61cda27c605fdb8, 0xda221a535251cb11d0c857f4a4d33cea, 64);
    Reach(0xda221a535251cb11d0c857f4a4d33cea, 0x9ffc540fe7906b9261ccf15f32d8fb76, 65);
    Reach(0x9ffc540fe7906b9261ccf15f32d8fb76, 0xe7fd06e74de151c7c202e71528e7bb19, 66);
    Reach(0xe7fd06e74de151c7c202e71528e7bb19, 0x113904d413b3f6359f5e1f8f9a0c15e2, 67);
  }

  lemma Reach72()
    ensures Reached(0xa25ff858d0b23feed41920d5ed01b037, 72)
  {
    hide Reached;
    Reach68();
    Reach(0x113904d413b3f6359f5e1f8f9a0c15e2, 0xd7e9afc71abf89105ba2466fba73d211, 68);
    Reach(0xd7e9afc71abf89105ba2466fba73d211, 0xfb6c66a7fda927aeba1923600a30404f, 69);
    Reach(0xfb6c66a7fda927aeba1923600a30404f, 0xb679225c9fe3e56eb849db250cf8b2e7, 70);
    Reach(0xb679225c9fe3e56eb849db250cf8b2e7, 0xa25ff858d0b23feed41920d5ed01b037, 71);
  }

  lemma Reach76()
    ensures Reached(0x39e72e7570fd08600675c41d1acf301b, 76)
  {
    hide Reached;
    Reach72();
    Reach(0xa25ff858d0b23feed41920d5ed01b037, 0x2d5b2519de7ab816b76b79ca180123e7, 72);
    Reach(0x2d5b2519de7ab816b76b79ca180123e7, 0x5d71e505dfcc4e3caa8db13466c4fb90, 73);
    Reach(0x5d71e505dfcc4e3caa8db13466c4fb90, 0xc7084ef83e3a43f2a29b789c682f0c18, 74);
    Reach(0xc7084ef83e3a43f2a29b789c682f0c18, 0x39e72e7570fd08600675c41d1acf301b, 75);
  }

  lemma Reach80()
    ensures Reached(0x24512597ef92ef86fda56ea8bc070896, 80)
  {
    hide Reached;
    Reach76();
    Reach(0x39e72e7570fd08600675c41d1acf301b, 0x839f9d8d174beaccec1a967f3e055c50, 76);
    Reach(0x839f9d8d174beaccec1a967f3e055c50, 0x1575f0c3384916ae64adc51ea0a0c487, 77);
    Reach(0x1575f0c3384916ae64adc51ea0a0c487, 0x8e98574e4371a5639a65d0597dff733e, 78);
    Reach(0x8e98574e4371a5639a65d0597dff733e, 0x24512597ef92ef86fda56ea8bc070896, 79);
  }

  lemma Reach84()
    ensures Reached(0x1df22d280201b16e99f22ec4c12c5d02, 84)
  {
    hide Reached;
    Reach80();
    Reach(0x24512597ef92ef86fda56ea8bc070896, 0x65789603ef10e6063fff2b8a3b4d82e0, 80);
    Reach(0x65789603ef10e6063fff2b8a3b4d82e0, 0x04d009b7a639a4f2bd91bcf0dd25d9ba, 81);
    Reach(0x04d009b7a639a4f2bd91bcf0dd25d9ba, 0x49d87fb6c20da03a3aae0285583fb5e2, 82);
    Reach(0x49d87fb6c20da03a3aae0285583fb5e2, 0x1df22d280201b16e99f22ec4c12c5d02, 83);
  }

  lemma Reach88()
    ensures Reached(0x70c2162f291c67a13aea80800e319c86, 88)
  {
    hide Reached;
    Reach84();
    Reach(0x1df22d280201b16e99f22ec4c12c5d02, 0xf2af51323360dcbecbef2a308bf01aaa, 84);
    Reach(0xf2af51323360dcbecbef2a308bf01aaa, 0x8bd5f244c0a140a0123b131994273b13, 85);
    Reach(0x8bd5f244c0a140a0123b131994273b13, 0x69a3c8dde8b039b8e308cb83e141f671, 86);
    Reach(0x69a3c8dde8b039b8e308cb83e141f671, 0x70c2162f291c67a13aea80800e319c86, 87);
  }

  lemma Reach92()
    ensures Reached(0xe61771152c88ed24e121b09b73361625, 92)
  {
    hide Reached;
    Reach88();
    Reach(0x70c2162f291c67a13aea80800e319c86, 0x9eaff077e472108807f92b3b29a90523, 88);
    Reach(0x9eaff077e472108807f92b3b29a90523, 0xf2355236cb3df40da7c28666ae99f081, 89);
    Reach(0xf2355236cb3df40da7c28666ae99f081, 0x9f3e91cd7e37715c70cf753bd8e98ce6, 90);
    Reach(0x9f3e91cd7e37715c70cf753bd8e98ce6, 0xe61771152c88ed24e121b09b73361625, 91);
  }

  lemma Reach96()
    ensures Reached(0x0c112a60f53f0f4e36a7a4a3f2e354ca, 96)
  {
    hide Reached;
    Reach92();
    Reach(0xe61771152c88ed24e121b09b73361625, 0x147af8f5820f2394c1b55464f7171315, 92);
    Reach(0x147af8f5820f2394c1b55464f7171315, 0xcb01751399f4145256bc7e58e8a85d74, 93);
    Reach(0xcb01751399f4145256bc7e58e8a85d74, 0x494e30ce6f5780a8649019687681a927, 94);
    Reach(0x494e30ce6f5780a8649019687681a927, 0x0c112a60f53f0f4e36a7a4a3f2e354ca, 95);
  }

  lemma Reach100()
    ensures Reached(0x11aec01d2b6843c2ea6df143009de34a, 100)
  {
    hide Reached;
    Reach96();
    Reach(0x0c112a60f53f0f4e36a7a4a3f2e354ca, 0x20b5e9f08ef927604056408dc8d05f22, 96);
    Reach(0x20b5e9f08ef927604056408dc8d05f22, 0x2c96ab3813954c10fb911bc8cf643628, 97);
    Reach(0x2c96ab3813954c10fb911bc8cf643628, 0x4c42a776ed89a6902e7e402793c0b466, 98);
    Reach(0x4c42a776ed89a6902e7e402793c0b466, 0x11aec01d2b6843c2ea6df143009de34a, 99);
  }

  lemma Reach104()
    ensures Reached(0x5883be785405654bc472b0798c7ab7ac, 104)
  {
    hide Reached;
    Reach100();
    Reach(0x11aec01d2b6843c2ea6df143009de34a, 0xc24e23c9ce69fdf2d53cfdda262a4112, 100);
    Reach(0xc24e23c9ce69fdf2d53cfdda262a4112, 0x214b7d37858a3dd84a8eb4f234377d55, 101);
    Reach(0x214b7d37858a3dd84a8eb4f234377d55, 0x2d806e3202aff9168748523993787b8a, 102);
    Reach(0x2d806e3202aff9168748523993787b8a, 0x5883be785405654bc472b0798c7ab7ac, 103);
  }

  lemma Reach108()
    ensures Reached(0xe2585efd7f614f6a7589c8e2a8e305bf, 108)
  {
    hide Reached;
    Reach104();
    Reach(0x5883be785405654bc472b0798c7ab7ac, 0xde7269c461a3bac27b52adc0ad90a49f, 104);
    Reach(0xde7269c461a3bac27b52adc0ad90a49f, 0xd79191d6689c52b853a7327891754389, 105);
    Reach(0xd79191d6689c52b853a7327891754389, 0xfb5e92652a367a9e5f4749d1744f6d57, 106);
    Reach(0xfb5e92652a367a9e5f4749d1744f6d57, 0xe2585efd7f614f6a7589c8e2a8e305bf, 107);
  }

  lemma Reach112()
    ensures Reached(0x6542fe3d792d7d1bbaba0159e5caa696, 112)
  {
    hide Reached;
    Reach108();
    Reach(0xe2585efd7f614f6a7589c8e2a8e305bf, 0x595dc874f3a61953f1e8f068f3d31a67, 108);
    Reach(0x595dc874f3a61953f1e8f068f3d31a67, 0xda13422a376cee488d55770154d8ffd1, 109);
    Reach(0xda13422a376cee488d55770154d8ffd1, 0x8e9ed6a85067d1970da463da8629eb4f, 110);
    Reach(0x8e9ed6a85067d1970da463da8629eb4f, 0x6542fe3d792d7d1bbaba0159e5caa696, 111);
  }

  lemma Reach116()
    ensures Reached(0xbeae11cf5ac5d5740d7712dc025e6623, 116)
  {
    hide Reached;
    Reach112();
    Reach(0x6542fe3d792d7d1bbaba0159e5caa696, 0x44f9c94e7982de6724ee642063e946ef, 112);
    Reach(0x44f9c94e7982de6724ee642063e946ef, 0x38b29774fcdd81c1fa8df2546f5b7069, 113);
    Reach(0x38b29774fcdd81c1fa8df2546f5b7069, 0xd7158e18e438738aec41fd07baf5d5a1, 114);
    Reach(0xd7158e18e438738aec41fd07baf5d5a1, 0xbeae11cf5ac5d5740d7712dc025e6623, 115);
  }

  lemma Reach120()
    ensures Reached(0xd21aa2346319b26bd6d24c33f8399ed6, 120)
  {
    hide Reached;
    Reach116();
    Reach(0xbeae11cf5ac5d5740d7712dc025e6623, 0xce70f376dc6f1f07d986bb5629b7903f, 116);
    Reach(0xce70f376dc6f1f07d986bb5629b7903f, 0x04975849b0bbef56c37db968c49c8bde, 117);
    Reach(0x04975849b0bbef56c37db968c49c8bde, 0x5cc300fb2332aa72c84e804803fa27e6, 118);
    Reach(0x5cc300fb2332aa72c84e804803fa27e6, 0xd21aa2346319b26bd6d24c33f8399ed6, 119);
  }

  lemma Reach124()
    ensures Reached(0xf210539fd8dd2772cbc26e38bdbd6c63, 124)
  {
    hide Reached;
    Reach120();
    Reach(0xd21aa2346319b26bd6d24c33f8399ed6, 0xb61257cfad572414ed09ef16e07b94c6, 120);
    Reach(0xb61257cfad572414ed09ef16e07b94c6, 0xb32fd29a04c0be084c3607bab51b5acb, 121);
    Reach(0xb32fd29a04c0be084c3607bab51b5acb, 0xfae6e08c31e89f90017eb6dcd4f33a27, 122);
    Reach(0xfae6e08c31e89f90017eb6dcd4f33a27, 0xf210539fd8dd2772cbc26e38bdbd6c63, 123);
  }

  lemma Reach127()
    ensures Reached(0x00000000000000000000000000000001, 127)
  {
    hide Reached;
    Reach124();
    Reach(0xf210539fd8dd2772cbc26e38bdbd6c63, 0x8b49849339334e30987a355cbf0c842b, 124);
    Reach(0x8b49849339334e30987a355cbf0c842b, 0x295ac0b1f4731af9676aac9fa4b20b09, 125);
    Reach(0x295ac0b1f4731af9676aac9fa4b20b09, 0x00000000000000000000000000000001, 126);
  }

  /** After 127 climbs x^127 has become one. */
  lemma ClimbsToOne()
    ensures Climbs(Eval(TOP), BITS - 1) == Unit(0)
  {
    hide Eval, Climbs, Unit;
    Reach127();
    EvalOne();
  }
}
