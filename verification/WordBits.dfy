/** Words of 128 bits, by named operations so that proofs about blocks need not look at their bits. */
module WordBits {
  function Add(v: bv128, w: bv128): bv128 {
    v ^ w
  }

  function Down(v: bv128): bv128 {
    v >> 1
  }

  predicate Odd(v: bv128) {
    v & 1 == 1
  }

  lemma AddZero(w: bv128)
    ensures Add(0, w) == w
  {}

  lemma DownSmaller(v: bv128)
    requires v != 0
    ensures Down(v) < v
  {}

  /** The length of a word without its leading zeros. */
  function Length(v: bv128): nat {
    if v == 0 then 0 else 1 + Length(v >> 1)
  }

  lemma LengthDown(v: bv128)
    requires v != 0
    ensures Length(Down(v)) < Length(v)
  {}

  lemma AddBits(v: bv128, w: bv128)
    ensures Down(Add(v, w)) == Add(Down(v), Down(w))
    ensures Odd(Add(v, w)) == (Odd(v) != Odd(w))
  {}

  lemma Unshift(v: bv128)
    requires v >> 127 == 0
    ensures Down(v << 1) == v && !Odd(v << 1)
  {}

  const TOP: bv128 := 0x80000000000000000000000000000000

  predicate HasTop(v: bv128) {
    v & TOP != 0
  }

  function Doubled(v: bv128): bv128 {
    v << 1
  }

  function TwiceWord(v: bv128): bv128 {
    Add(Doubled(v), if HasTop(v) then 0x87 else 0)
  }

  /** The word without its top bit, and that doubled. */
  function LowPart(v: bv128): bv128 {
    v & 0x7fffffffffffffffffffffffffffffff
  }

  function DoubleLow(v: bv128): bv128 {
    LowPart(v) << 1
  }

  lemma LowFits(v: bv128)
    ensures LowPart(v) >> 127 == 0
  {}

  lemma TwiceParts(v: bv128)
    ensures TwiceWord(v) == Add(DoubleLow(v), if HasTop(v) then 0x87 else 0)
    ensures v == Add(LowPart(v), if HasTop(v) then TOP else 0)
  {
    hide Add, LowPart, Doubled, DoubleLow, HasTop, TOP;
    LowDoubled(v);
    TopBit(v);
  }

  lemma LowDoubled(v: bv128)
    ensures DoubleLow(v) == Doubled(v)
  {}

  lemma TopBit(v: bv128)
    ensures v == Add(LowPart(v), if HasTop(v) then TOP else 0)
  {
    TopSplit(v);
    TopAlone(v);
  }

  lemma TopSplit(v: bv128)
    ensures v == (v & 0x7fffffffffffffffffffffffffffffff) ^ (v & 0x80000000000000000000000000000000)
  {}

  lemma TopAlone(v: bv128)
    ensures v & 0x80000000000000000000000000000000 != 0 ==>
      v & 0x80000000000000000000000000000000 == 0x80000000000000000000000000000000
  {}

  /** The bits of a half word, a zero after each. */
  function Spread(v: bv128): bv128 {
    var a := (v ^ (v << 32)) & 0xffffffff00000000ffffffff;
    var b := (a ^ (a << 16)) & 0xffff0000ffff0000ffff0000ffff;
    var c := (b ^ (b << 8)) & 0xff00ff00ff00ff00ff00ff00ff00ff;
    var d := (c ^ (c << 4)) & 0xf0f0f0f0f0f0f0f0f0f0f0f0f0f0f0f;
    var e := (d ^ (d << 2)) & 0x33333333333333333333333333333333;
    (e ^ (e << 1)) & 0x55555555555555555555555555555555
  }

  lemma SpreadDoubles(v: bv128)
    requires v >> 63 == 0
    ensures Spread(v << 1) == Spread(v) << 2 && Spread(v) >> 126 == 0
  {}

  lemma SpreadXor(v: bv128, w: bv128)
    requires IsHalf(v) && IsHalf(w)
    ensures Spread(Add(v, w)) == Add(Spread(v), Spread(w))
  {
    hide Spread;
    SpreadSum(v, w);
  }

  lemma SpreadSum(v: bv128, w: bv128)
    requires v >> 64 == 0 && w >> 64 == 0
    ensures Spread(v ^ w) == Spread(v) ^ Spread(w)
  {}

  function LastBit(v: bv128): bv128 {
    v & 1
  }

  function Even(v: bv128): bv128 {
    v >> 1 << 1
  }

  predicate IsHalf(v: bv128) {
    v >> 64 == 0
  }

  lemma HalfParts(v: bv128)
    requires IsHalf(v)
    ensures IsHalf(LastBit(v)) && IsHalf(Even(v)) && IsHalf(Down(v))
    ensures v == Add(Even(v), LastBit(v))
    ensures Spread(LastBit(v)) == LastBit(v) && LastBit(v) in {0, 1}
    ensures v != 0 ==> Length(Down(v)) < Length(v)
  {
    hide Spread, Length;
    HalfSplit(v);
    HalfRange(v);
    BitSpread();
    BitAlone(v);
    if v != 0 {
      LengthDown(v);
    }
  }

  lemma HalfSplit(v: bv128)
    ensures v == (v >> 1 << 1) ^ (v & 1)
  {}

  lemma HalfRange(v: bv128)
    requires v >> 64 == 0
    ensures (v & 1) >> 64 == 0 && (v >> 1 << 1) >> 64 == 0 && v >> 1 >> 64 == 0
  {}

  lemma BitAlone(v: bv128)
    ensures v & 1 == 0 || v & 1 == 1
  {}

  lemma BitSpread()
    ensures Spread(0) == 0 && Spread(1) == 1
  {}

  lemma HalfFits(v: bv128)
    requires IsHalf(v)
    ensures Down(v) >> 63 == 0 && Down(v) >> 127 == 0 && Even(v) == Down(v) << 1
  {}

  lemma SpreadZero()
    ensures Spread(0) == 0
  {}

  /** A word multiplied by x^128. */
  function FoldWord(h: bv128): bv128 {
    var h1 := TwiceWord(h);
    var h2 := TwiceWord(h1);
    var h7 := TwiceWord(TwiceWord(TwiceWord(TwiceWord(TwiceWord(h2)))));
    Add(Add(Add(h, h1), h2), h7)
  }

  function LowHalf(v: bv128): bv128 {
    v & 0xffffffffffffffff
  }

  function HighHalf(v: bv128): bv128 {
    v >> 64
  }

  function SquareWord(v: bv128): bv128 {
    Add(Spread(LowHalf(v)), FoldWord(Spread(HighHalf(v))))
  }

  function Raised(v: bv128): bv128 {
    HighHalf(v) << 64
  }

  lemma Halves(v: bv128)
    ensures IsHalf(LowHalf(v)) && IsHalf(HighHalf(v)) && v == Add(LowHalf(v), Raised(v))
  {}

  function ClimbWord(v: bv128): bv128 {
    Add(SquareWord(v), v)
  }
}
