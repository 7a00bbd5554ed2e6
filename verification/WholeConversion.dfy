/** What the whole conversion means: substitution and basis change keep the value of the polynomial over the bits. */
module WholeConversion {
  import opened Algebra
  import opened Words
  import opened BasisConversion
  import opened PolynomialValues
  import opened NovelBasis
  import opened VariableSubstitution
  import opened Gf128

  /** The ring acts on itself. */
  ghost predicate OnItself<F(!new)>(s: Space<F, F>) {
    Laws(s) && s.vzero == s.zero && s.xor == s.plus && s.scale == s.times
  }

  ghost function BitValue<F>(s: Space<F, F>): bool -> F {
    b => if b then s.one else s.zero
  }

  /** The value at x of the polynomial whose coefficients are these bits. */
  ghost function BitsValue<F>(s: Space<F, F>, x: F, bits: seq<bool>): F {
    Poly(s, x, Mapped(BitValue(s), bits))
  }

  ghost function WordValue<F>(s: Space<F, F>, x: F): Word256 -> F {
    w => BitsValue(s, x, w)
  }

  lemma BitsAdditive<F(!new)>(s: Space<F, F>)
    requires OnItself(s)
    ensures Additive(BitValue(s), VariableSubstitution.XorBits(), s.xor)
  {
    hide Laws;
    RingXor(s);
    XorZero(s.zero, s.plus, s.zero);
    XorZero(s.zero, s.plus, s.one);
    XorComm(s.zero, s.plus, s.zero, s.one);
  }

  lemma WordsAdditive<F(!new)>(s: Space<F, F>, x: F)
    requires OnItself(s)
    ensures Additive(WordValue(s, x), XorWord, s.xor)
  {
    hide Laws, Poly;
    forall v: Word256, w: Word256
      ensures WordValue(s, x)(XorWord(v, w)) == s.xor(WordValue(s, x)(v), WordValue(s, x)(w))
    {
      SumOfWords(s, x, v, w);
    }
  }

  lemma SumOfWords<F(!new)>(s: Space<F, F>, x: F, v: Word256, w: Word256)
    requires OnItself(s)
    ensures BitsValue(s, x, XorWord(v, w)) == s.xor(BitsValue(s, x, v), BitsValue(s, x, w))
  {
    hide Laws, Poly;
    BitsAdditive(s);
    var f, g, h := Mapped(BitValue(s), v), Mapped(BitValue(s), w), Mapped(BitValue(s), XorWord(v, w));
    forall i | 0 <= i < WIDTH
      ensures h[i] == s.xor(f[i], g[i])
    {
      assert XorWord(v, w)[i] == VariableSubstitution.XorBits()(v[i], w[i]);
    }
    PolyXor(s, x, f, g, h);
  }

  // Powers.

  lemma {:induction false} PowTimes<F(!new)>(s: Space<F, F>, x: F, d: nat, e: nat)
    requires Laws(s)
    ensures Pow(s, Pow(s, x, d), e) == Pow(s, x, d * e)
  {
    hide Laws;
    if e > 0 {
      PowTimes(s, x, d, e - 1);
      PowPlus(s, x, d * (e - 1), d);
      assert d * (e - 1) + d == d * e;
    } else {
      assert d * 0 == 0;
    }
  }

  /** Powers of two of a sum are sums of the powers. */
  lemma {:induction false} PowerOfSum<F(!new)>(s: Space<F, F>, a: F, b: F, k: nat)
    requires Laws(s)
    ensures Pow(s, s.plus(a, b), Pow2(k)) == s.plus(Pow(s, a, Pow2(k)), Pow(s, b, Pow2(k)))
  {
    hide Laws, Pow;
    if k == 0 {
      PowOne(s, a);
      PowOne(s, b);
      PowOne(s, s.plus(a, b));
    } else {
      PowerOfSum(s, a, b, k - 1);
      SquareOfPower(s, s.plus(a, b), k - 1);
      SquareOfPower(s, a, k - 1);
      SquareOfPower(s, b, k - 1);
      SquareOfSum(s, Pow(s, a, Pow2(k - 1)), Pow(s, b, Pow2(k - 1)));
    }
  }

  // The substitution.

  /** Level j halves blocks of 2^(j + 1) words. */
  function LevelOffset(j: nat): seq<nat> {
    Offset(j + 1)
  }

  lemma {:induction false} SizeOfWords(l: nat)
    ensures Size(WIDTH, l) == WIDTH * Pow2(l)
  {
    if l > 0 {
      SizeOfWords(l - 1);
    }
  }

  lemma WordLevelsGood()
    ensures GoodLevels(WIDTH, LevelOffset)
  {
    hide Pow2, Size, Offset;
    forall j: nat
      ensures GoodOffsets(LevelOffset(j), Size(WIDTH, j))
    {
      SizeOfWords(j);
      GoodOffset(j + 1);
    }
  }

  /** Substituting back, level by level, keeps the value. */
  lemma {:induction false} SubstitutedValue<F(!new)>(s: Space<F, F>, x: F, bits: seq<bool>, l: nat, k: nat)
    requires OnItself(s) && GoodLevels(WIDTH, LevelOffset) && |bits| == Size(WIDTH, l)
    ensures Mixed(s, x, WIDTH, LevelOffset, Mapped(BitValue(s), bits), l, 0) ==
      Mixed(s, x, WIDTH, LevelOffset, Mapped(BitValue(s), Substituted(bits, k)), l, k)
  {
    hide Laws, Pow2, ExpandLevel, Offset, Mixed, BitValue, Size;
    if k > 0 {
      SubstitutedValue(s, x, bits, l, k - 1);
      BitsAdditive(s);
      SizeOfWords(k - 1);
      var before := Substituted(bits, k - 1);
      LevelValue(s, x, WIDTH, LevelOffset, Mapped(BitValue(s), before), l, k - 1);
      MappedLevel(BitValue(s), VariableSubstitution.XorBits(), s.xor, before, HalfBits(k), Offset(k));
    }
  }

  /** The new variable: x^256 + x. */
  ghost function Variable<F>(s: Space<F, F>, x: F): F {
    s.plus(Pow(s, x, WIDTH), x)
  }

  /** The divisor of a level is a power of the new variable. */
  lemma DivisorIsPower<F(!new)>(s: Space<F, F>, x: F, j: nat)
    requires Laws(s) && GoodOffsets(LevelOffset(j), Size(WIDTH, j))
    ensures Divisor(s, x, Size(WIDTH, j), LevelOffset(j)) == Pow(s, Variable(s, x), Pow2(j))
  {
    hide Laws, Pow, Pow2, Size;
    var n, d, m := Size(WIDTH, j), (WIDTH - 1) * Pow2(j), Pow2(j);
    SizeOfWords(j);
    assert LevelOffset(j) == [d] && [d][..0] == [];
    assert Divisor(s, x, n, []) == Pow(s, x, n);
    assert Divisor(s, x, n, [d]) == s.plus(Pow(s, x, WIDTH * m), Pow(s, x, m));
    PowerOfSum(s, Pow(s, x, WIDTH), x, j);
    PowTimes(s, x, WIDTH, m);
  }

  /** A vector of words, as a polynomial in the new variable whose coefficients are the words. */
  lemma {:induction false} WordsValue<F(!new)>(s: Space<F, F>, x: F, w: seq<Word256>, l: nat)
    requires OnItself(s) && GoodLevels(WIDTH, LevelOffset) && |w| == Pow2(l)
    ensures |Flat(w)| == Size(WIDTH, l)
    ensures Mixed(s, x, WIDTH, LevelOffset, Mapped(BitValue(s), Flat(w)), l, 0) ==
      Poly(s, Variable(s, x), Mapped(WordValue(s, x), w))
  {
    hide Laws, Poly, Divisor, BitValue, WordValue, Variable, Flat, LevelOffset;
    SizeOfWords(l);
    var bits, values := Mapped(BitValue(s), Flat(w)), Mapped(WordValue(s, x), w);
    if l == 0 {
      OneWord(s, x, w);
    } else {
      var h, n := Pow2(l - 1), Size(WIDTH, l - 1);
      SizeOfWords(l - 1);
      WordsValue(s, x, w[..h], l - 1);
      WordsValue(s, x, w[h..], l - 1);
      HalfBitsOf(s, w, h);
      assert values[..h] == Mapped(WordValue(s, x), w[..h]) && values[h..] == Mapped(WordValue(s, x), w[h..]);
      DivisorIsPower(s, x, l - 1);
      PolyHalves(s, Variable(s, x), values, h);
    }
  }

  lemma HalfBitsOf<F>(s: Space<F, F>, w: seq<Word256>, h: nat)
    requires h <= |w|
    ensures WIDTH * h <= |Flat(w)|
    ensures Mapped(BitValue(s), Flat(w))[..WIDTH * h] == Mapped(BitValue(s), Flat(w[..h]))
    ensures Mapped(BitValue(s), Flat(w))[WIDTH * h..] == Mapped(BitValue(s), Flat(w[h..]))
  {
    hide Flat, BitValue;
    FlatPart(w, 0, h);
    FlatPart(w, h, |w|);
    assert w[0..h] == w[..h] && w[h..|w|] == w[h..];
    assert Flat(w)[WIDTH * 0..WIDTH * h] == Flat(w)[..WIDTH * h];
    assert Flat(w)[WIDTH * h..WIDTH * |w|] == Flat(w)[WIDTH * h..];
  }

  lemma OneWord<F(!new)>(s: Space<F, F>, x: F, w: seq<Word256>)
    requires Laws(s) && |w| == 1
    ensures BitsValue(s, x, Flat(w)) == Poly(s, Variable(s, x), Mapped(WordValue(s, x), w))
  {
    hide Laws, Poly, BitValue, Variable;
    assert Flat(w) == w[0] by {
      hide Flat;
      forall b | 0 <= b < WIDTH
        ensures |Flat(w)| == WIDTH && Flat(w)[b] == w[0][b]
      {
        FlatAt(w, 0, b);
      }
    }
    PolyOne(s, Variable(s, x), Mapped(WordValue(s, x), w));
  }

  lemma PolyHalves<F(!new)>(s: Space<F, F>, y: F, f: seq<F>, h: nat)
    requires Laws(s) && |f| == 2 * h
    ensures Poly(s, y, f) == s.xor(Poly(s, y, f[..h]), s.scale(Pow(s, y, h), Poly(s, y, f[h..])))
  {
    hide Laws, Poly, Pow;
    assert Expanded(s.xor, f, h, []) == f;
    BlockValue(s, y, f, h, []);
  }

  // The levels of words.

  lemma {:induction false} MappedLevels<A(!new), B>(
    map': A -> B, xorA: (A, A) -> A, xorB: (B, B) -> B, f: seq<A>, from: nat, end: nat)
    requires Additive(map', xorA, xorB)
    ensures Mapped(map', ExpandLevels(xorA, f, from, end)) == ExpandLevels(xorB, Mapped(map', f), from, end)
    decreases end - from
  {
    hide ExpandLevel, Pow2, Offsets, Additive;
    if from < end {
      MappedLevel(map', xorA, xorB, f, Pow2(from), Offsets(from));
      MappedLevels(map', xorA, xorB, ExpandLevel(xorA, f, Pow2(from), Offsets(from)), from + 1, end);
    }
  }

  lemma MappedChunks<A(!new), B>(
    map': A -> B, xorA: (A, A) -> A, xorB: (B, B) -> B, v: seq<A>, w: seq<A>, chunks: nat, len: nat, from: nat,
    end: nat)
    requires Additive(map', xorA, xorB) && |v| == |w| && ChunksMap(xorA, v, w, chunks, len, from, end, true)
    ensures ChunksMap(xorB, Mapped(map', v), Mapped(map', w), chunks, len, from, end, true)
  {
    hide ExpandLevels, ChunkStart, Additive;
    forall c | 0 <= c < chunks
      ensures ChunkMaps(xorB, Mapped(map', v), Mapped(map', w), ChunkStart(c, len), len, from, end, true)
    {
      var lo := ChunkStart(c, len);
      assert ChunkMaps(xorA, v, w, lo, len, from, end, true);
      assert Part(Mapped(map', v), lo, len) == Mapped(map', Part(v, lo, len));
      assert Part(Mapped(map', w), lo, len) == Mapped(map', Part(w, lo, len));
      MappedLevels(map', xorA, xorB, Part(v, lo, len), from, end);
    }
  }

  lemma MappedConversion<A(!new), B>(
    map': A -> B, xorA: (A, A) -> A, xorB: (B, B) -> B, g: seq<A>, m1: seq<A>, m2: seq<A>, f: seq<A>, logn: nat)
    requires Additive(map', xorA, xorB) && MultipliesOut(xorA, g, m1, m2, f, logn)
    ensures MultipliesOut(xorB, Mapped(map', g), Mapped(map', m1), Mapped(map', m2), Mapped(map', f), logn)
  {
    hide ExpandLevels, ChunksMap, Pow2, Additive;
    MappedChunks(map', xorA, xorB, g, m1, ChunkCount(logn, LOW_CHUNK), Pow2(ChunkLog(logn, LOW_CHUNK)), 1, LOW_CHUNK);
    MappedChunks(map', xorA, xorB, m1, m2, ChunkCount(logn, MIDDLE_CHUNK), Pow2(ChunkLog(logn, MIDDLE_CHUNK)),
      LOW_CHUNK, MIDDLE_CHUNK);
    MappedLevels(map', xorA, xorB, m2, MIDDLE_CHUNK, TOP_LEVEL + 1);
  }

  /**
   * The meaning of the two drivers: at every point x of every commutative ring of characteristic two, the bits on the
   * monomial side have the value of the words on the other side as coefficients in the basis, at x^256 + x.
   */
  lemma DriversKeepValue<F(!new)>(
    s: Space<F, F>, x: F, g: seq<Word256>, m1: seq<Word256>, m2: seq<Word256>, w: seq<Word256>, f: seq<Word256>,
    logn: nat)
    requires OnItself(s) && logn <= TOP_LEVEL && Converts(g, m1, m2, w, f, logn)
    ensures |g| == Pow2(logn)
    ensures BitsValue(s, x, Flat(f)) ==
      NovelValue(s, s.plus(Pow(s, x, WIDTH), x), Mapped(WordValue(s, x), g), logn)
  {
    hide Laws, Pow2, MultipliesOut, Flat, Substituted, NovelValue, WordValue, BitValue, Poly, XorWord;
    SameLengths(g, m1, m2, w, f, logn);
    WordLevelsGood();
    WordsValue(s, x, w, logn);
    SubstitutedValue(s, x, Flat(w), logn, logn);
    WordsAdditive(s, x);
    MappedConversion(WordValue(s, x), XorWord, s.xor, g, m1, m2, w, logn);
    SameValue(s, Variable(s, x), Mapped(WordValue(s, x), g), Mapped(WordValue(s, x), m1), Mapped(WordValue(s, x), m2),
      Mapped(WordValue(s, x), w), logn);
  }
}
