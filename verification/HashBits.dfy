/** Which bits of a hash its columns and its bin come from. */
module HashBits {
  import opened Algebra
  import opened WeightSets
  import opened Words
  import opened PaxosHash
  import BlockField
  import BlockOrder
  import BaxosBins

  /** Bit k of a number. */
  predicate Bit(x: nat, k: nat) {
    x / Pow2(k) % 2 == 1
  }

  /** Word w holds the 64 bits of the hash from bit `at` on. */
  ghost predicate WordIs(h: Block, at: nat, w: nat) {
    at + WORD <= BlockField.BITS && w < Pow2(WORD) && forall k :: 0 <= k < WORD ==> (Bit(w, k) <==> h[at + k])
  }

  lemma BitStep(x: nat, k: nat)
    ensures Bit(x, 0) <==> x % 2 == 1
    ensures Bit(x, k + 1) <==> Bit(x / 2, k)
  {
    DivDiv(x, 2, Pow2(k));
    assert Pow2(0) == 1;
  }

  lemma {:induction false} BitAbove(n: nat, x: nat, k: nat)
    requires x < Pow2(n) && k >= n
    ensures !Bit(x, k)
  {
    hide Bit;
    if n == 0 {
      ZeroBit(k);
    } else {
      BitStep(x, k - 1);
      BitAbove(n - 1, x / 2, k - 1);
    }
  }

  lemma ZeroBit(k: nat)
    ensures !Bit(0, k)
  {}

  /** The bits determine a word. */
  lemma {:induction false} SameBits(n: nat, x: nat, y: nat)
    requires x < Pow2(n) && y < Pow2(n) && forall k :: 0 <= k < n ==> (Bit(x, k) <==> Bit(y, k))
    ensures x == y
  {
    hide Bit;
    if n > 0 {
      BitStep(x, 0);
      BitStep(y, 0);
      assert Bit(x, 0) <==> Bit(y, 0);
      forall k | 0 <= k < n - 1
        ensures Bit(x / 2, k) <==> Bit(y / 2, k)
      {
        BitStep(x, k);
        BitStep(y, k);
        assert Bit(x, k + 1) <==> Bit(y, k + 1);
      }
      SameBits(n - 1, x / 2, y / 2);
    }
  }

  /** The bits of the number are those of the block. */
  lemma {:induction false} NumberBits(h: Block, at: nat, n: nat, k: nat)
    requires at + n <= BlockField.BITS && k < n
    ensures Bit(Number(h, at, n), k) <==> h[at + k]
    decreases n
  {
    hide Bit;
    var x := Number(h, at, n);
    NumberStep(h, at, n);
    if k == 0 {
      BitStep(x, 0);
    } else {
      BitStep(x, k - 1);
      NumberBits(h, at + 1, n - 1, k - 1);
    }
  }

  lemma NumberStep(h: Block, at: nat, n: nat)
    requires at + n <= BlockField.BITS && n > 0
    ensures Number(h, at, n) / 2 == Number(h, at + 1, n - 1)
    ensures Number(h, at, n) % 2 == 1 <==> h[at]
  {
    LastBit(if h[at] then 1 else 0, Number(h, at + 1, n - 1));
  }

  /** The three words of a hash overlap: they start at bits 0, 32 and 64. */
  lemma WordAtIs(h: Block, i: nat, w: nat)
    requires i <= 2 && WordIs(h, 32 * i, w)
    ensures WordAt(h, i) == w
  {
    hide Bit, Number, Pow2;
    forall k | 0 <= k < WORD
      ensures Bit(WordAt(h, i), k) <==> Bit(w, k)
    {
      NumberBits(h, 32 * i, WORD, k);
    }
    SameBits(WORD, WordAt(h, i), w);
  }

  /** Weight three: the words at bits 0, 32 and 64 are reduced by n, n - 1 and n - 2, and raised past each other. */
  lemma ThreeOfBits(h: Block, n: nat, a: nat, b: nat, c: nat)
    requires n >= 3 && WordIs(h, 0, a) && WordIs(h, 32, b) && WordIs(h, 64, c)
    ensures var x, y, z := a % n, b % (n - 1), c % (n - 2);
      var second := if y >= x then y + 1 else y;
      var min, max := if x < second then x else second, if x < second then second else x;
      var raised := if z >= min then z + 1 else z;
      RowOf(h, 3, n) == [x, second, if raised >= max then raised + 1 else raised]
  {
    hide WordAt, WordIs, Three;
    WordAtIs(h, 0, a);
    WordAtIs(h, 1, b);
    WordAtIs(h, 2, c);
    RaisedThree(a % n, b % (n - 1), c % (n - 2));
  }

  lemma {:induction false} SquaredIsPower(h: Block, j: nat)
    ensures Squared(h, j) == Pow(BlockField.BlockSpace(), h, Pow2(j))
  {
    hide BlockField.Times, BlockField.BlockSpace;
    BlockOrder.SquaresArePowers(h, j);
    SameSquares(h, j);
  }

  lemma {:induction false} SameSquares(h: Block, j: nat)
    ensures Squared(h, j) == BlockOrder.Squares(h, j)
  {
    hide BlockField.Times;
    if j > 0 {
      SameSquares(h, j - 1);
    }
  }

  /**
   * Any other weight: column j + 1 is the one below which as many columns are unused as the first word of
   * h^(2^(j + 1)), reduced by n - j, says.
   */
  lemma NextColumn(h: Block, j: nat, n: nat, w: nat) returns (m: nat)
    requires j < n && WordIs(Pow(BlockField.BlockSpace(), h, Pow2(j + 1)), 0, w)
    ensures Entries(Chosen(h, j + 1, n)) == Entries(Chosen(h, j, n)) + {m} && m !in Chosen(h, j, n)
    ensures |Gaps(Chosen(h, j, n), m)| == w % (n - j)
    ensures |Chosen(h, j + 1, n)| == |Chosen(h, j, n)| + 1
  {
    hide WordAt, WordIs, Missing, Inserted, Chosen, Gaps, BlockField.Times, BlockField.BlockSpace, Squared, Entries,
      Increasing;
    SquaredIsPower(h, j + 1);
    WordAtIs(Squared(h, j + 1), 0, w);
    ChosenNext(h, j, n);
    var row, k := Chosen(h, j, n), w % (n - j);
    m := Missing(row, k);
    MissingIsNew(row, k);
    MissingRank(row, k);
    InsertedIncreases(row, k);
  }

  /** The columns of a row of another weight increase; there are none to begin with. */
  lemma ChosenOrder(h: Block, weight: nat, n: nat)
    requires weight <= n
    ensures forall i, j :: 0 <= i < j < |Chosen(h, weight, n)| ==> Chosen(h, weight, n)[i] < Chosen(h, weight, n)[j]
    ensures Chosen(h, 0, n) == [] && (weight != 3 ==> RowOf(h, weight, n) == Chosen(h, weight, n))
  {
    hide Inserted, Rank;
  }

  // The bin.

  lemma {:induction false} XorBit(x: nat, y: nat, k: nat)
    ensures Bit(Xor(x, y), k) <==> (Bit(x, k) != Bit(y, k))
  {
    hide Bit, Xor;
    XorBits(x, y);
    if k == 0 {
      BitStep(x, 0);
      BitStep(y, 0);
      BitStep(Xor(x, y), 0);
    } else {
      BitStep(x, k - 1);
      BitStep(y, k - 1);
      BitStep(Xor(x, y), k - 1);
      XorBit(x / 2, y / 2, k - 1);
    }
  }

  /** The sum of bits k and 64 + k of the hash, and of bit 96 + k for k below 32. */
  predicate FoldedBit(h: Block, k: nat)
    requires k < WORD
  {
    (h[k] != h[64 + k]) != (k < 32 && h[96 + k])
  }

  /** The bits of the folded hash. */
  lemma FoldedBits(h: Block, k: nat)
    requires k < WORD
    ensures Bit(BaxosBins.Compress(h), k) <==> FoldedBit(h, k)
  {
    hide Bit, Xor, Number, Pow2;
    var low, high, top := Number(h, 0, WORD), Number(h, WORD, WORD), Number(h, 96, 32);
    XorBit(low, high, k);
    XorBit(Xor(low, high), top, k);
    NumberBits(h, 0, WORD, k);
    NumberBits(h, WORD, WORD, k);
    if k < 32 {
      NumberBits(h, 96, 32, k);
    } else {
      BitAbove(32, top, k);
    }
  }

  /** The bin of a hash is the word of those bits, reduced by the number of bins. */
  lemma BinOfBits(h: Block, numBins: nat, w: nat)
    requires numBins > 0 && w < Pow2(WORD)
    requires forall k :: 0 <= k < WORD ==> (Bit(w, k) <==> FoldedBit(h, k))
    ensures BaxosBins.BinOf(h, numBins) == w % numBins
  {
    hide Bit, Pow2, BaxosBins.Compress;
    forall k | 0 <= k < WORD
      ensures Bit(BaxosBins.Compress(h), k) <==> Bit(w, k)
    {
      FoldedBits(h, k);
    }
    SameBits(WORD, BaxosBins.Compress(h), w);
  }
}
