/** What the basis conversion means: the coefficients change, the polynomial keeps its value at every point. */
module NovelBasis {
  import opened Algebra
  import opened Words
  import opened BasisConversion
  import opened PolynomialValues
  import opened Gf128

  /** The polynomials that the basis is made of: x, and from one to the next s^2 + s. */
  ghost function Subspace<F, V>(s: Space<F, V>, x: F, j: nat): F {
    if j == 0 then x
    else s.plus(s.times(Subspace(s, x, j - 1), Subspace(s, x, j - 1)), Subspace(s, x, j - 1))
  }

  /** The value at x of 2^l coefficients in the basis: the upper half is multiplied by polynomial l - 1. */
  ghost function NovelValue<F, V>(s: Space<F, V>, x: F, f: seq<V>, l: nat): V
    requires |f| == Pow2(l)
  {
    if l == 0 then f[0]
    else
      s.xor(NovelValue(s, x, f[..Pow2(l - 1)], l - 1),
            s.scale(Subspace(s, x, l - 1), NovelValue(s, x, f[Pow2(l - 1)..], l - 1)))
  }

  // The binomial coefficients modulo two.

  /** Whether the binomial coefficient of j over i is odd. */
  ghost predicate Odd(j: nat, i: nat) {
    i <= j && And(i, j - i) == 0
  }

  /** The rule of Pascal, modulo two. */
  lemma {:induction false} Pascal(j: nat, i: nat)
    requires i >= 1
    ensures Odd(j + 1, i) <==> (Odd(j, i) != Odd(j, i - 1))
    decreases j, 1
  {
    hide And;
    OddEnds(j);
    OddEnds(j + 1);
    if i <= j {
      PascalInside(j, i);
    }
  }

  lemma OddEnds(j: nat)
    ensures Odd(j, 0) && Odd(j, j)
  {
    AndZero(j);
  }

  lemma {:induction false} PascalInside(j: nat, i: nat)
    requires 1 <= i <= j
    ensures Odd(j + 1, i) <==> (Odd(j, i) != Odd(j, i - 1))
    decreases j, 0
  {
    hide And, Odd;
    OddHalves(j, i);
    OddHalves(j, i - 1);
    OddHalves(j + 1, i);
    if j % 2 == 1 && i % 2 == 0 {
      Pascal(j / 2, i / 2);
    }
  }

  /** Halving: an even number over an odd one is even, otherwise the halves decide. */
  lemma OddHalves(j: nat, i: nat)
    requires i <= j
    ensures Odd(j, i) <==> !(j % 2 == 0 && i % 2 == 1) && Odd(j / 2, i / 2)
  {
    hide And;
    OddEnds(j);
    OddEnds(j / 2);
    if i < j {
      if j % 2 == 0 {
        EvenLevel(j / 2, i);
      } else {
        OddLevel(j / 2, i);
      }
    }
  }

  // The divisor of a level is the polynomial of that level.

  /** The sum of x^(2^i) for i < k with an odd binomial coefficient of j over i. */
  ghost function Terms<F, V>(s: Space<F, V>, x: F, j: nat, k: nat): F {
    if k == 0 then s.zero
    else s.plus(Terms(s, x, j, k - 1), if Odd(j, k - 1) then Pow(s, x, Pow2(k - 1)) else s.zero)
  }

  lemma RingXor<F(!new), V(!new)>(s: Space<F, V>)
    requires Laws(s)
    ensures XorLaws(s.zero, s.plus)
  {}

  lemma {:induction false} DivisorTerms<F(!new), V(!new)>(s: Space<F, V>, x: F, j: nat, k: nat)
    requires Laws(s) && k <= j
    ensures GoodOffsets(OffsetsBelow(j, k), Pow2(j))
    ensures Divisor(s, x, Pow2(j), OffsetsBelow(j, k)) == s.plus(Pow(s, x, Pow2(j)), Terms(s, x, j, k))
  {
    hide Laws, Pow2, And, Pow;
    OffsetsInRange(j, k);
    RingXor(s);
    var top := Pow(s, x, Pow2(j));
    if k == 0 {
      XorZero(s.zero, s.plus, top);
    } else {
      DivisorTerms(s, x, j, k - 1);
      var rest := Terms(s, x, j, k - 1);
      XorZero(s.zero, s.plus, rest);
      Pow2Grows(k - 1, j);
      var init, d := OffsetsBelow(j, k - 1), Pow2(j) - Pow2(k - 1);
      if !Odd(j, k - 1) {
        assert OffsetsBelow(j, k) == init + [] == init;
      } else {
        assert OffsetsBelow(j, k) == init + [d] && (init + [d])[..|init|] == init;
        XorAssoc(s.zero, s.plus, top, rest, Pow(s, x, Pow2(k - 1)));
      }
    }
  }

  /** Squares of sums are sums of squares. */
  lemma SquareOfSum<F(!new), V(!new)>(s: Space<F, V>, a: F, b: F)
    requires Laws(s)
    ensures s.times(s.plus(a, b), s.plus(a, b)) == s.plus(s.times(a, a), s.times(b, b))
  {
    hide XorLaws;
    RingXor(s);
    var c := s.plus(a, b);
    TimesLaws(s, c, a, b);
    TimesLaws(s, a, a, b);
    TimesLaws(s, b, a, b);
    TimesLaws(s, c, a, a);
    TimesLaws(s, c, b, b);
    var ab, aa, bb := s.times(a, b), s.times(a, a), s.times(b, b);
    XorSwap(s.zero, s.plus, aa, ab, ab, bb);
    XorAssoc(s.zero, s.plus, aa, ab, s.plus(ab, bb));
    XorAssoc(s.zero, s.plus, ab, ab, bb);
    XorZero(s.zero, s.plus, ab);
    XorComm(s.zero, s.plus, s.zero, bb);
    XorZero(s.zero, s.plus, bb);
  }

  /** The square of x^(2^i) is x^(2^(i + 1)). */
  lemma SquareOfPower<F(!new), V(!new)>(s: Space<F, V>, x: F, i: nat)
    requires Laws(s)
    ensures s.times(Pow(s, x, Pow2(i)), Pow(s, x, Pow2(i))) == Pow(s, x, Pow2(i + 1))
  {
    hide Laws, Pow;
    PowPlus(s, x, Pow2(i), Pow2(i));
  }

  lemma SquareOfZero<F(!new), V(!new)>(s: Space<F, V>)
    requires Laws(s)
    ensures s.times(s.zero, s.zero) == s.zero
  {
    hide XorLaws;
    RingXor(s);
    TimesLaws(s, s.zero, s.zero, s.zero);
    XorZero(s.zero, s.plus, s.zero);
    XorZero(s.zero, s.plus, s.times(s.zero, s.zero));
  }

  /** From one level to the next: the square and the sum itself, by the rule of Pascal. */
  lemma {:induction false} NextTerms<F(!new), V(!new)>(s: Space<F, V>, x: F, j: nat, k: nat)
    requires Laws(s) && k >= 1
    ensures Terms(s, x, j + 1, k) ==
      s.plus(s.times(Terms(s, x, j, k - 1), Terms(s, x, j, k - 1)), Terms(s, x, j, k))
  {
    hide Laws, Pow2, Pow, Odd;
    RingXor(s);
    SquareOfZero(s);
    OddEnds(j);
    OddEnds(j + 1);
    if k == 1 {
      var t := Pow(s, x, Pow2(0));
      TermsOne(s, x, j);
      TermsOne(s, x, j + 1);
      XorComm(s.zero, s.plus, s.zero, t);
      XorZero(s.zero, s.plus, t);
    } else {
      var i := k - 1;
      NextTerms(s, x, j, i);
      Pascal(j, i);
      var before, t, u := Terms(s, x, j, i - 1), Term(s, x, j, i - 1), Term(s, x, j, i);
      TermsNext(s, x, j, i - 1);
      TermsNext(s, x, j, i);
      TermsNext(s, x, j + 1, i);
      SquareOfSum(s, before, t);
      SquareOfPower(s, x, i - 1);
      var square := s.times(before, before);
      XorSwap(s.zero, s.plus, square, Terms(s, x, j, i), s.times(t, t), u);
      XorZero(s.zero, s.plus, Pow(s, x, Pow2(i)));
      XorComm(s.zero, s.plus, s.zero, Pow(s, x, Pow2(i)));
      XorZero(s.zero, s.plus, s.zero);
    }
  }

  ghost function Term<F, V>(s: Space<F, V>, x: F, j: nat, i: nat): F {
    if Odd(j, i) then Pow(s, x, Pow2(i)) else s.zero
  }

  lemma TermsNext<F, V>(s: Space<F, V>, x: F, j: nat, k: nat)
    ensures Terms(s, x, j, k + 1) == s.plus(Terms(s, x, j, k), Term(s, x, j, k))
  {}

  lemma TermsOne<F(!new), V(!new)>(s: Space<F, V>, x: F, j: nat)
    requires Laws(s)
    ensures Terms(s, x, j, 1) == Pow(s, x, Pow2(0)) && Terms(s, x, j, 0) == s.zero
  {
    hide Laws;
    RingXor(s);
    OddEnds(j);
    assert Terms(s, x, j, 1) == s.plus(Terms(s, x, j, 0), Pow(s, x, Pow2(0)));
    XorComm(s.zero, s.plus, s.zero, Pow(s, x, Pow2(0)));
    XorZero(s.zero, s.plus, Pow(s, x, Pow2(0)));
  }

  lemma {:induction false} TermsAreSubspace<F(!new), V(!new)>(s: Space<F, V>, x: F, j: nat)
    requires Laws(s)
    ensures Terms(s, x, j, j + 1) == Subspace(s, x, j)
  {
    hide Laws, Odd, Pow;
    RingXor(s);
    if j == 0 {
      TermsOne(s, x, 0);
      PowOne(s, x);
    } else {
      TermsAreSubspace(s, x, j - 1);
      NextTerms(s, x, j - 1, j + 1);
      TermsNext(s, x, j - 1, j);
      NotOdd(j - 1);
      XorZero(s.zero, s.plus, Terms(s, x, j - 1, j));
    }
  }

  lemma NotOdd(j: nat)
    ensures !Odd(j, j + 1)
  {}

  /** The divisor of level j, with the exponents that the generated code has, is polynomial j of the basis. */
  lemma DivisorIsSubspace<F(!new), V(!new)>(s: Space<F, V>, x: F, j: nat)
    requires Laws(s)
    ensures GoodOffsets(Offsets(j), Pow2(j)) && Divisor(s, x, Pow2(j), Offsets(j)) == Subspace(s, x, j)
  {
    hide Laws, Pow2, Pow, Odd, Divisor, Terms, Subspace, OffsetsBelow;
    DivisorTerms(s, x, j, j);
    TermsAreSubspace(s, x, j);
    TermsNext(s, x, j, j);
    OddEnds(j);
    RingXor(s);
    XorComm(s.zero, s.plus, Terms(s, x, j, j), Pow(s, x, Pow2(j)));
  }

  // The levels of the conversion.

  lemma {:induction false} SizeOfOne(l: nat)
    ensures Size(1, l) == Pow2(l)
  {
    if l > 0 {
      SizeOfOne(l - 1);
    }
  }

  lemma LevelsGood()
    ensures GoodLevels(1, Offsets)
  {
    hide Pow2, Size, Offsets;
    forall j: nat
      ensures GoodOffsets(Offsets(j), Size(1, j))
    {
      SizeOfOne(j);
      GoodLevel(j);
    }
  }

  /** Levels `from` to `end` - 1 keep the value. */
  lemma {:induction false} LevelsValue<F(!new), V(!new)>(s: Space<F, V>, x: F, f: seq<V>, l: nat, from: nat, end: nat)
    requires Laws(s) && GoodLevels(1, Offsets) && |f| == Size(1, l) && from <= end
    ensures Mixed(s, x, 1, Offsets, f, l, from) ==
      Mixed(s, x, 1, Offsets, ExpandLevels(s.xor, f, from, end), l, end)
    decreases end - from
  {
    hide Laws, Pow2, ExpandLevel, Offsets, Mixed;
    if from < end {
      SizeOfOne(from);
      LevelsFirst(s.xor, f, from, end);
      LevelValue(s, x, 1, Offsets, f, l, from);
      LevelsValue(s, x, ExpandLevel(s.xor, f, Pow2(from), Offsets(from)), l, from + 1, end);
    } else {
      NoLevels(s.xor, f, end);
    }
  }

  /** The halves of a vector of chunks are vectors of half as many chunks. */
  lemma HalfChunks<V>(v: seq<V>, l: nat, cl: nat, c: nat, upper: bool)
    requires |v| == Pow2(l) && cl < l && c < Pow2(l - 1 - cl)
    ensures var half, d := if upper then v[Pow2(l - 1)..] else v[..Pow2(l - 1)],
      if upper then Pow2(l - 1 - cl) + c else c;
      && Pow2(l) == 2 * Pow2(l - 1) && d < Pow2(l - cl)
      && ChunkStart(c, Pow2(cl)) + Pow2(cl) <= |half| && ChunkStart(d, Pow2(cl)) + Pow2(cl) <= |v|
      && Part(half, ChunkStart(c, Pow2(cl)), Pow2(cl)) == Part(v, ChunkStart(d, Pow2(cl)), Pow2(cl))
  {
    hide Part;
    var m, len := Pow2(l - 1 - cl), Pow2(cl);
    ChunkPlaces(l, cl, c);
    if upper {
      UpperPart(v, m * len, ChunkStart(c, len), len);
    } else {
      LowerPart(v, m * len, ChunkStart(c, len), len);
    }
  }

  lemma ChunkPlaces(l: nat, cl: nat, c: nat)
    requires cl < l && c < Pow2(l - 1 - cl)
    ensures var m, len := Pow2(l - 1 - cl), Pow2(cl);
      && Pow2(l) == 2 * Pow2(l - 1) && Pow2(l - cl) == 2 * m && m * len == Pow2(l - 1)
      && ChunkStart(c, len) + len <= m * len && ChunkStart(m + c, len) == m * len + ChunkStart(c, len)
  {
    hide Pow2;
    var m, len := Pow2(l - 1 - cl), Pow2(cl);
    TwoHalves(l);
    TwoHalves(l - cl);
    Pow2Plus(l - 1 - cl, cl);
    Next(c, len);
    MulLe(c + 1, m, len);
    SplitStart(m, c, len);
  }

  lemma TwoHalves(l: nat)
    requires l > 0
    ensures Pow2(l) == 2 * Pow2(l - 1)
  {}

  lemma UpperPart<V>(v: seq<V>, h: nat, at: nat, len: nat)
    requires h + at + len <= |v|
    ensures Part(v[h..], at, len) == Part(v, h + at, len)
  {}

  lemma LowerPart<V>(v: seq<V>, h: nat, at: nat, len: nat)
    requires at + len <= h <= |v|
    ensures Part(v[..h], at, len) == Part(v, at, len)
  {}

  lemma SplitStart(m: nat, c: nat, len: nat)
    ensures ChunkStart(m + c, len) == m * len + ChunkStart(c, len)
  {}

  /** Levels on consecutive chunks keep the value of the whole vector. */
  lemma {:induction false} ChunksValue<F(!new), V(!new)>(
    s: Space<F, V>, x: F, v: seq<V>, w: seq<V>, l: nat, cl: nat, from: nat, end: nat)
    requires Laws(s) && GoodLevels(1, Offsets) && |v| == |w| == Pow2(l) && cl <= l && from <= end
    requires cl == l || end <= cl
    requires ChunksMap(s.xor, v, w, Pow2(l - cl), Pow2(cl), from, end, true)
    ensures Size(1, l) == Pow2(l)
    ensures Mixed(s, x, 1, Offsets, v, l, from) == Mixed(s, x, 1, Offsets, w, l, end)
    decreases l
  {
    hide Laws, ExpandLevels, Offsets, ChunkStart, Part, LevelsMap, Mixed, Pow2;
    SizeOfOne(l);
    if cl == l {
      OneChunk(s.xor, v, w, l, from, end);
      LevelsValue(s, x, v, l, from, end);
    } else {
      var h := Pow2(l - 1);
      SizeOfOne(l - 1);
      HalvesMap(s.xor, v, w, l, cl, from, end);
      ChunksValue(s, x, v[..h], w[..h], l - 1, cl, from, end);
      ChunksValue(s, x, v[h..], w[h..], l - 1, cl, from, end);
      MixedHalves(s, x, v, l, from);
      MixedHalves(s, x, w, l, end);
    }
  }

  lemma MixedHalves<F, V>(s: Space<F, V>, x: F, f: seq<V>, l: nat, j: nat)
    requires GoodLevels(1, Offsets) && l > j && |f| == Size(1, l) && Size(1, l - 1) == Pow2(l - 1)
    ensures |f| == 2 * Pow2(l - 1) && GoodOffsets(Offsets(l - 1), Pow2(l - 1))
    ensures Mixed(s, x, 1, Offsets, f, l, j) ==
      s.xor(Mixed(s, x, 1, Offsets, f[..Pow2(l - 1)], l - 1, j),
            s.scale(Divisor(s, x, Pow2(l - 1), Offsets(l - 1)), Mixed(s, x, 1, Offsets, f[Pow2(l - 1)..], l - 1, j)))
  {
    hide Pow2, Offsets, Divisor;
  }

  lemma OneChunk<V>(xor: (V, V) -> V, v: seq<V>, w: seq<V>, l: nat, from: nat, end: nat)
    requires |v| == |w| == Pow2(l) && ChunksMap(xor, v, w, Pow2(l - l), Pow2(l), from, end, true)
    ensures w == ExpandLevels(xor, v, from, end)
  {
    hide ExpandLevels;
    assert Pow2(0) == 1 && ChunkStart(0, Pow2(l)) == 0;
    assert ChunkMaps(xor, v, w, ChunkStart(0, Pow2(l)), Pow2(l), from, end, true);
    WholePart(v);
    WholePart(w);
  }

  lemma HalvesMap<V>(xor: (V, V) -> V, v: seq<V>, w: seq<V>, l: nat, cl: nat, from: nat, end: nat)
    requires |v| == |w| == Pow2(l) && cl < l && ChunksMap(xor, v, w, Pow2(l - cl), Pow2(cl), from, end, true)
    ensures Pow2(l) == 2 * Pow2(l - 1)
    ensures ChunksMap(xor, v[..Pow2(l - 1)], w[..Pow2(l - 1)], Pow2(l - 1 - cl), Pow2(cl), from, end, true)
    ensures ChunksMap(xor, v[Pow2(l - 1)..], w[Pow2(l - 1)..], Pow2(l - 1 - cl), Pow2(cl), from, end, true)
  {
    hide ExpandLevels, ChunkStart, Part, LevelsMap;
    var h, len, m := Pow2(l - 1), Pow2(cl), Pow2(l - 1 - cl);
    forall c | 0 <= c < m
      ensures ChunkMaps(xor, v[..h], w[..h], ChunkStart(c, len), len, from, end, true)
      ensures ChunkMaps(xor, v[h..], w[h..], ChunkStart(c, len), len, from, end, true)
    {
      HalfChunks(v, l, cl, c, false);
      HalfChunks(w, l, cl, c, false);
      HalfChunks(v, l, cl, c, true);
      HalfChunks(w, l, cl, c, true);
      assert ChunkMaps(xor, v, w, ChunkStart(c, len), len, from, end, true);
      assert ChunkMaps(xor, v, w, ChunkStart(m + c, len), len, from, end, true);
    }
  }

  /** Before any level the vector holds coefficients in the basis. */
  lemma {:induction false} MixedIsNovel<F(!new), V(!new)>(s: Space<F, V>, x: F, f: seq<V>, l: nat)
    requires Laws(s) && GoodLevels(1, Offsets) && |f| == Pow2(l)
    ensures Size(1, l) == Pow2(l) && Mixed(s, x, 1, Offsets, f, l, 1) == NovelValue(s, x, f, l)
  {
    hide Laws, Offsets, Poly, Divisor, Subspace;
    SizeOfOne(l);
    if l == 0 {
      PolyOne(s, x, f);
    } else if l == 1 {
      PolyTwo(s, x, f);
      NovelTwo(s, x, f);
    } else {
      SizeOfOne(l - 1);
      var h := Pow2(l - 1);
      MixedIsNovel(s, x, f[..h], l - 1);
      MixedIsNovel(s, x, f[h..], l - 1);
      DivisorIsSubspace(s, x, l - 1);
    }
  }

  lemma PolyOne<F(!new), V(!new)>(s: Space<F, V>, x: F, f: seq<V>)
    requires Laws(s) && |f| == 1
    ensures Poly(s, x, f) == f[0]
  {
    hide XorLaws;
    assert f[..0] == [];
    PowNothing(s, x, f[0]);
    XorComm(s.vzero, s.xor, s.vzero, f[0]);
    XorZero(s.vzero, s.xor, f[0]);
  }

  lemma PolyTwo<F(!new), V(!new)>(s: Space<F, V>, x: F, f: seq<V>)
    requires Laws(s) && |f| == 2
    ensures Poly(s, x, f) == s.xor(f[0], s.scale(x, f[1]))
  {
    hide Laws;
    PolyOne(s, x, f[..1]);
    PowOne(s, x);
  }

  lemma NovelTwo<F, V>(s: Space<F, V>, x: F, f: seq<V>)
    requires |f| == Pow2(1)
    ensures NovelValue(s, x, f, 1) == s.xor(f[0], s.scale(x, f[1]))
  {
    assert Pow2(0) == 1 && |f[..1]| == 1 && |f[1..]| == 1;
    assert NovelValue(s, x, f[..1], 0) == f[0] && NovelValue(s, x, f[1..], 0) == f[1];
  }

  /**
   * The meaning of the conversion: for every commutative ring of characteristic two that acts on the entries and every
   * point x of it, the coefficients in the basis and those of the powers of x have the same value.
   */
  lemma SameValue<F(!new), V(!new)>(
    s: Space<F, V>, x: F, g: seq<V>, m1: seq<V>, m2: seq<V>, f: seq<V>, logn: nat)
    requires Laws(s) && logn <= TOP_LEVEL && MultipliesOut(s.xor, g, m1, m2, f, logn)
    ensures |f| == |g| == Pow2(logn) && NovelValue(s, x, g, logn) == Poly(s, x, f)
  {
    hide Laws, Pow2, ExpandLevels, Offsets, ChunksMap, NovelValue, Mixed, Poly;
    LevelsGood();
    ChunksAre(logn, LOW_CHUNK);
    ChunksAre(logn, MIDDLE_CHUNK);
    SizeOfOne(logn);
    MixedIsNovel(s, x, g, logn);
    ChunksValue(s, x, g, m1, logn, ChunkLog(logn, LOW_CHUNK), 1, LOW_CHUNK);
    ChunksValue(s, x, m1, m2, logn, ChunkLog(logn, MIDDLE_CHUNK), LOW_CHUNK, MIDDLE_CHUNK);
    LevelsValue(s, x, m2, logn, MIDDLE_CHUNK, TOP_LEVEL + 1);
    AllPoly(s, x, f, logn);
  }

  lemma AllPoly<F, V>(s: Space<F, V>, x: F, f: seq<V>, l: nat)
    requires GoodLevels(1, Offsets) && |f| == Size(1, l) && l <= TOP_LEVEL
    ensures Mixed(s, x, 1, Offsets, f, l, TOP_LEVEL + 1) == Poly(s, x, f)
  {}

  lemma ChunksAre(logn: nat, k: nat)
    ensures ChunkLog(logn, k) <= logn && ChunkCount(logn, k) == Pow2(logn - ChunkLog(logn, k))
    ensures ChunkLog(logn, k) == logn || k <= ChunkLog(logn, k)
  {}
}
