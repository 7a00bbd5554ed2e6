/** The substitution of a variable that precedes the levels of the basis conversion, on words of 256 bits. */
module VariableSubstitution {
  import opened Algebra
  import opened Words
  import opened BasisConversion

  const WIDTH: nat := 256

  type Word256 = w: seq<bool> | |w| == WIDTH witness seq(WIDTH, _ => false)

  function XorBits(): (bool, bool) -> bool {
    (x, y) => x != y
  }

  lemma BitXorLaws()
    ensures XorLaws(false, XorBits())
  {}

  function ZeroWord(): Word256 {
    seq(WIDTH, _ => false)
  }

  function XorWord(x: Word256, y: Word256): Word256 {
    seq(WIDTH, b requires 0 <= b < WIDTH => x[b] != y[b])
  }

  lemma WordXorLaws()
    ensures XorLaws(ZeroWord(), XorWord)
  {
    hide XorWord;
    forall x: Word256, y: Word256, z: Word256
      ensures XorWord(XorWord(x, y), z) == XorWord(x, XorWord(y, z))
    {
      WordXor(x, y, z);
    }
    forall x: Word256, y: Word256
      ensures XorWord(x, y) == XorWord(y, x)
    {
      WordXor(x, y, y);
    }
    forall x: Word256
      ensures XorWord(x, ZeroWord()) == x && XorWord(x, x) == ZeroWord()
    {
      WordXor(x, x, x);
    }
  }

  lemma WordXor(x: Word256, y: Word256, z: Word256)
    ensures XorWord(x, y) == XorWord(y, x)
    ensures XorWord(XorWord(x, y), z) == XorWord(x, XorWord(y, z))
    ensures XorWord(x, ZeroWord()) == x && XorWord(x, x) == ZeroWord()
  {}

  /** The high word shifted up by s bits, the top bits of the low word moving in below. */
  function ShiftIn(s: nat, high: Word256, low: Word256): Word256
    requires 1 <= s <= WIDTH
  {
    seq(WIDTH, b requires 0 <= b < WIDTH => if b >= s then high[b - s] else low[WIDTH - s + b])
  }

  /** The bits of a vector of words. */
  function Flat(ws: seq<Word256>): (bits: seq<bool>)
    ensures |bits| == WIDTH * |ws|
  {
    seq(WIDTH * |ws|, q requires 0 <= q < WIDTH * |ws| => FlatBit(ws, q))
  }

  function FlatBit(ws: seq<Word256>, q: nat): bool
    requires q < WIDTH * |ws|
  {
    ws[q / WIDTH][q % WIDTH]
  }

  lemma FlatPart(ws: seq<Word256>, lo: nat, hi: nat)
    requires lo <= hi <= |ws|
    ensures Flat(ws[lo..hi]) == Flat(ws)[WIDTH * lo..WIDTH * hi]
  {
    var part, whole := Flat(ws[lo..hi]), Flat(ws)[WIDTH * lo..WIDTH * hi];
    hide Flat, FlatBit;
    forall q | 0 <= q < |part|
      ensures part[q] == whole[q]
    {
      var k, b := q / WIDTH, q % WIDTH;
      FlatAt(ws[lo..hi], k, b);
      FlatAt(ws, lo + k, b);
    }
  }

  // One block of 2 m words: m is the number of bits, or a multiple of 256, by which the upper half moves down.

  /** The word that is added to word k of a block: what the upper half has m bits below word k + m. */
  function Moved(p: seq<Word256>, m: nat, k: nat): Word256
    requires |p| == 2 * m && k < |p| && (1 <= m < WIDTH || m % WIDTH == 0)
  {
    if m < WIDTH then
      if k > m then ZeroWord()
      else ShiftIn(m, if k < m then p[m + k] else ZeroWord(), if k > 0 then p[m + k - 1] else ZeroWord())
    else
      var t := m / WIDTH;
      if t <= k < t + m then p[k - t + m] else ZeroWord()
  }

  ghost predicate Shifts(m: nat) {
    1 <= m <= WIDTH / 2 || (m >= WIDTH && m % WIDTH == 0)
  }

  lemma SmallPowers()
    ensures Pow2(0) == 1 && Pow2(7) == WIDTH / 2 && Pow2(8) == WIDTH
  {
    assert Pow2(4) == 16;
    Pow2Plus(4, 3);
    Pow2Plus(4, 4);
  }

  lemma HalfPower(i: nat)
    requires i >= 1
    ensures Pow2(i) == 2 * Pow2(i - 1)
  {}

  lemma LevelShifts(i: nat)
    requires i >= 1
    ensures Shifts(Pow2(i - 1)) && Pow2(i) == 2 * Pow2(i - 1) && (i <= 8 <==> Pow2(i - 1) < WIDTH)
    ensures i > 8 ==> Pow2(i - 1) / WIDTH == Pow2(i - 9)
  {
    hide Pow2;
    SmallPowers();
    HalfPower(i);
    PowPositive(i - 1);
    if i < 8 {
      Pow2Grows(i - 1, 7);
    } else if i > 8 {
      Pow2Plus(i - 9, 8);
      if i > 9 {
        Pow2Grows(8, i - 1);
      }
    }
  }

  /** The words of a block with the moved words added. */
  ghost function UpBlock(p: seq<Word256>, m: nat): (r: seq<Word256>)
    requires |p| == 2 * m && Shifts(m)
    ensures |r| == |p|
  {
    seq(2 * m, k requires 0 <= k < 2 * m => XorWord(p[k], Moved(p, m, k)))
  }

  lemma UpBlockAt(p: seq<Word256>, m: nat, k: nat)
    requires |p| == 2 * m && Shifts(m) && k < 2 * m
    ensures |UpBlock(p, m)| == 2 * m && UpBlock(p, m)[k] == XorWord(p[k], Moved(p, m, k))
  {}

  lemma FlatAt(p: seq<Word256>, k: nat, b: nat)
    requires k < |p| && b < WIDTH
    ensures WIDTH * k + b < WIDTH * |p| && Flat(p)[WIDTH * k + b] == FlatBit(p, WIDTH * k + b) == p[k][b]
  {
    assert (WIDTH * k + b) / WIDTH == k && (WIDTH * k + b) % WIDTH == b;
  }

  /** The bit of the upper half that moves to bit q of a block. */
  ghost function MovedBit(p: seq<Word256>, m: nat, q: nat): bool
    requires |p| == 2 * m
  {
    var e := q + (WIDTH - 1) * m;
    WIDTH * m <= e < 2 * (WIDTH * m) && FlatBit(p, e)
  }

  lemma NarrowMove(p: seq<Word256>, m: nat, k: nat, b: nat)
    requires |p| == 2 * m && 1 <= m < WIDTH && k < 2 * m && b < WIDTH
    ensures Moved(p, m, k)[b] == MovedBit(p, m, WIDTH * k + b)
  {
    hide FlatBit, Flat;
    if b >= m {
      MovedAbove(p, m, k, b);
    } else {
      MovedBelow(p, m, k, b);
    }
  }

  lemma NarrowWord(p: seq<Word256>, m: nat, k: nat, b: nat)
    requires |p| == 2 * m && 1 <= m < WIDTH && k < 2 * m && b < WIDTH
    ensures b >= m ==> Moved(p, m, k)[b] == (k < m && p[m + k][b - m])
    ensures b < m ==> Moved(p, m, k)[b] == (0 < k <= m && p[m + k - 1][WIDTH + b - m])
  {
    hide Moved, ShiftIn;
    NarrowMoved(p, m, k);
    var high, low := if k < m then p[m + k] else ZeroWord(), if 0 < k <= m then p[m + k - 1] else ZeroWord();
    ShiftedBit(m, high, low, b);
  }

  lemma ShiftedBit(s: nat, high: Word256, low: Word256, b: nat)
    requires 1 <= s <= WIDTH && b < WIDTH
    ensures ShiftIn(s, high, low)[b] == if b >= s then high[b - s] else low[WIDTH - s + b]
  {}

  lemma MovedAbove(p: seq<Word256>, m: nat, k: nat, b: nat)
    requires |p| == 2 * m && 1 <= m <= b < WIDTH && k < 2 * m
    ensures Moved(p, m, k)[b] == MovedBit(p, m, WIDTH * k + b)
  {
    hide FlatBit, Flat, Moved;
    var c := b - m;
    NarrowWord(p, m, k, b);
    MovedFrom(p, m, WIDTH * k + b, k + m, c);
    if k < m {
      FlatAt(p, k + m, c);
    }
  }

  lemma MovedBelow(p: seq<Word256>, m: nat, k: nat, b: nat)
    requires |p| == 2 * m && 1 <= m < WIDTH && b < m && k < 2 * m
    ensures Moved(p, m, k)[b] == MovedBit(p, m, WIDTH * k + b)
  {
    hide FlatBit, Flat, Moved;
    var c := WIDTH + b - m;
    NarrowWord(p, m, k, b);
    MovedFrom(p, m, WIDTH * k + b, k + m - 1, c);
    if 0 < k <= m {
      FlatAt(p, k + m - 1, c);
    }
  }

  /** The moved bit comes from bit c of word j, if that word is in the upper half. */
  lemma MovedFrom(p: seq<Word256>, m: nat, q: nat, j: nat, c: nat)
    requires |p| == 2 * m && q + (WIDTH - 1) * m == WIDTH * j + c && c < WIDTH
    ensures MovedBit(p, m, q) == (m <= j < 2 * m && FlatBit(p, WIDTH * j + c))
  {
    hide FlatBit;
  }

  lemma WideMove(p: seq<Word256>, m: nat, k: nat, b: nat)
    requires |p| == 2 * m && m >= WIDTH && m % WIDTH == 0 && k < 2 * m && b < WIDTH
    ensures Moved(p, m, k)[b] == MovedBit(p, m, WIDTH * k + b)
  {
    hide FlatBit, Flat;
    var t := m / WIDTH;
    assert m == WIDTH * t;
    assert WIDTH * k + b + (WIDTH - 1) * m == WIDTH * (k + m - t) + b;
    if t <= k < t + m {
      FlatAt(p, k + m - t, b);
    }
  }

  /** What a level adds to one bit of a block. */
  lemma GatherOne(bits: seq<bool>, q: nat, n: nat, d: nat)
    requires |bits| == 2 * n && q < 2 * n
    ensures Gather(XorBits(), bits, q, n, [d]) == (bits[q] != (n <= q + d < 2 * n && bits[q + d]))
  {
    assert [d][..0] == [];
    assert Gather(XorBits(), bits, q, n, []) == bits[q];
  }

  /** Adding the moved words multiplies the upper half by x^(256 m) + x^m. */
  lemma UpBlockExpands(p: seq<Word256>, m: nat)
    requires |p| == 2 * m && Shifts(m)
    ensures Flat(UpBlock(p, m)) == Expanded(XorBits(), Flat(p), WIDTH * m, [(WIDTH - 1) * m])
  {
    hide UpBlock, Gather, Flat, FlatBit, Moved, MovedBit;
    var n, d := WIDTH * m, (WIDTH - 1) * m;
    forall q | 0 <= q < 2 * n
      ensures Flat(UpBlock(p, m))[q] == Gather(XorBits(), Flat(p), q, n, [d])
    {
      UpBit(p, m, q);
    }
  }

  lemma UpBit(p: seq<Word256>, m: nat, q: nat)
    requires |p| == 2 * m && Shifts(m) && q < 2 * (WIDTH * m)
    ensures Flat(UpBlock(p, m))[q] == Gather(XorBits(), Flat(p), q, WIDTH * m, [(WIDTH - 1) * m])
  {
    hide UpBlock, Gather, Flat, FlatBit, Moved, MovedBit;
    var k, b := q / WIDTH, q % WIDTH;
    assert q == WIDTH * k + b;
    GatherOne(Flat(p), q, WIDTH * m, (WIDTH - 1) * m);
    UpBlockAt(p, m, k);
    FlatAt(p, k, b);
    FlatAt(UpBlock(p, m), k, b);
    if m < WIDTH {
      NarrowMove(p, m, k, b);
    } else {
      WideMove(p, m, k, b);
    }
    MovedIsFlat(p, m, q);
  }

  lemma MovedIsFlat(p: seq<Word256>, m: nat, q: nat)
    requires |p| == 2 * m && q < 2 * (WIDTH * m)
    ensures var e := q + (WIDTH - 1) * m;
      MovedBit(p, m, q) == (WIDTH * m <= e < 2 * (WIDTH * m) && Flat(p)[e])
  {
    hide FlatBit;
  }

  // The loops over one block.

  lemma XorBack(x: Word256, y: Word256)
    ensures XorWord(XorWord(x, y), y) == x && XorWord(x, ZeroWord()) == x
  {}

  lemma NarrowMoved(p: seq<Word256>, m: nat, k: nat)
    requires |p| == 2 * m && 1 <= m < WIDTH && k < 2 * m
    ensures k == 0 ==> Moved(p, m, k) == ShiftIn(m, p[m], ZeroWord())
    ensures 0 < k < m ==> Moved(p, m, k) == ShiftIn(m, p[m + k], p[m + k - 1])
    ensures k == m ==> Moved(p, m, k) == ShiftIn(m, ZeroWord(), p[2 * m - 1])
    ensures k > m ==> Moved(p, m, k) == ZeroWord()
  {
    hide ShiftIn, ZeroWord;
  }

  lemma WideMoved(p: seq<Word256>, m: nat, t: nat, k: nat)
    requires |p| == 2 * m && m == WIDTH * t && t >= 1 && k < 2 * m
    ensures Moved(p, m, k) == if t <= k < t + m then p[k - t + m] else ZeroWord()
  {
    hide ZeroWord;
  }

  // Upwards, the first word first.

  /** The first words of a block with their moved words added. */
  ghost predicate UpDone(r: seq<Word256>, p: seq<Word256>, m: nat, k: nat)
    requires |p| == 2 * m && Shifts(m)
  {
    && |r| == 2 * m
    && (forall j :: 0 <= j < k && j < 2 * m ==> r[j] == XorWord(p[j], Moved(p, m, j)))
    && (forall j :: k <= j < 2 * m ==> r[j] == p[j])
  }

  lemma UpStep(r: seq<Word256>, p: seq<Word256>, m: nat, k: nat)
    requires |p| == 2 * m && Shifts(m) && UpDone(r, p, m, k) && k < 2 * m
    ensures UpDone(r[k := XorWord(r[k], Moved(p, m, k))], p, m, k + 1)
    ensures Moved(r, m, k) == Moved(p, m, k)
  {
    hide XorWord, ShiftIn, ZeroWord;
    if m >= WIDTH {
      assert m / WIDTH < m;
    }
  }

  /** Before the first and after the last word that moves, there is nothing to add. */
  lemma UpEnds(r: seq<Word256>, p: seq<Word256>, m: nat, first: nat, end: nat)
    requires |p| == 2 * m && Shifts(m)
    requires if m < WIDTH then first == 0 && end == m + 1 else first == m / WIDTH && end == m / WIDTH + m
    ensures UpDone(p, p, m, first) && end <= 2 * m
    ensures UpDone(r, p, m, end) ==> r == UpBlock(p, m)
  {
    hide XorWord, ShiftIn, ZeroWord;
    forall j | 0 <= j < 2 * m && !(first <= j < end)
      ensures XorWord(p[j], Moved(p, m, j)) == p[j]
    {
      XorBack(p[j], ZeroWord());
    }
    if UpDone(r, p, m, end) {
      forall j | 0 <= j < 2 * m
        ensures r[j] == UpBlock(p, m)[j]
      {
        UpBlockAt(p, m, j);
      }
    }
  }

  /** Writes word k of a block. */
  method AddTo(a: array<Word256>, at: nat, ghost m: nat, k: nat, w: Word256)
    requires k < 2 * m && at + 2 * m <= a.Length
    modifies a
    ensures a[at..at + 2 * m] == old(a[at..at + 2 * m])[k := XorWord(old(a[at..at + 2 * m])[k], w)]
    ensures forall q :: 0 <= q < a.Length && !(at <= q < at + 2 * m) ==> a[q] == old(a[q])
  {
    hide XorWord;
    a[at + k] := XorWord(a[at + k], w);
  }

  /** By m bits, m below 256: within single words and their neighbours. */
  method NarrowUp(a: array<Word256>, at: nat, m: nat)
    requires 1 <= m <= WIDTH / 2 && at + 2 * m <= a.Length
    modifies a
    ensures a[at..at + 2 * m] == UpBlock(old(a[at..at + 2 * m]), m)
    ensures forall q :: 0 <= q < a.Length && !(at <= q < at + 2 * m) ==> a[q] == old(a[q])
  {
    hide XorWord, ShiftIn, ZeroWord, Moved, UpBlock, UpDone;
    ghost var p := a[at..at + 2 * m];
    UpEnds(p, p, m, 0, m + 1);
    UpStep(a[at..at + 2 * m], p, m, 0);
    NarrowMoved(a[at..at + 2 * m], m, 0);
    AddTo(a, at, m, 0, ShiftIn(m, a[at + m], ZeroWord()));
    for i := 0 to m - 1
      invariant UpDone(a[at..at + 2 * m], p, m, i + 1)
      invariant forall q :: 0 <= q < a.Length && !(at <= q < at + 2 * m) ==> a[q] == old(a[q])
    {
      UpStep(a[at..at + 2 * m], p, m, i + 1);
      NarrowMoved(a[at..at + 2 * m], m, i + 1);
      AddTo(a, at, m, i + 1, ShiftIn(m, a[at + m + i + 1], a[at + m + i]));
    }
    UpStep(a[at..at + 2 * m], p, m, m);
    NarrowMoved(a[at..at + 2 * m], m, m);
    AddTo(a, at, m, m, ShiftIn(m, ZeroWord(), a[at + 2 * m - 1]));
    UpEnds(a[at..at + 2 * m], p, m, 0, m + 1);
  }

  /** By t whole words, m = 256 t. */
  method WideUp(a: array<Word256>, at: nat, m: nat, t: nat)
    requires m == WIDTH * t && t >= 1 && at + 2 * m <= a.Length
    modifies a
    ensures a[at..at + 2 * m] == UpBlock(old(a[at..at + 2 * m]), m)
    ensures forall q :: 0 <= q < a.Length && !(at <= q < at + 2 * m) ==> a[q] == old(a[q])
  {
    hide XorWord, ZeroWord, Moved, UpBlock, UpDone;
    ghost var p := a[at..at + 2 * m];
    UpEnds(p, p, m, t, t + m);
    for i := 0 to m
      invariant UpDone(a[at..at + 2 * m], p, m, t + i)
      invariant forall q :: 0 <= q < a.Length && !(at <= q < at + 2 * m) ==> a[q] == old(a[q])
    {
      UpStep(a[at..at + 2 * m], p, m, t + i);
      WideMoved(a[at..at + 2 * m], m, t, t + i);
      AddTo(a, at, m, t + i, a[at + m + i]);
    }
    UpEnds(a[at..at + 2 * m], p, m, t, t + m);
  }

  // Downwards, the last word first.

  /** The words from k on are such that adding the moved words gives the old ones back; the others are the old ones. */
  ghost predicate DownDone(r: seq<Word256>, p: seq<Word256>, m: nat, k: nat)
    requires |p| == 2 * m && Shifts(m)
  {
    && |r| == 2 * m
    && (forall j :: k <= j < 2 * m ==> XorWord(r[j], Moved(r, m, j)) == p[j])
    && (forall j :: 0 <= j < k && j < 2 * m ==> r[j] == p[j])
  }

  /** The bits that move out at the top are not touched by those that move in below. */
  lemma TopStays(x: Word256)
    ensures ShiftIn(1, ZeroWord(), XorWord(x, ShiftIn(1, ZeroWord(), x))) == ShiftIn(1, ZeroWord(), x)
  {}

  /** Writing word k does not change what moves to it or to a later word. */
  lemma MovesSame(r: seq<Word256>, m: nat, k: nat, j: nat)
    requires |r| == 2 * m && Shifts(m) && k <= j < 2 * m
    ensures Moved(r[k := XorWord(r[k], Moved(r, m, k))], m, j) == Moved(r, m, j)
  {
    hide XorWord, ShiftIn, ZeroWord;
    if m >= WIDTH {
      assert m / WIDTH < m;
    } else if m == 1 && k == j == 1 {
      TopStays(r[1]);
    }
  }

  lemma DownStep(r: seq<Word256>, p: seq<Word256>, m: nat, k: nat)
    requires |p| == 2 * m && Shifts(m) && DownDone(r, p, m, k + 1) && k < 2 * m
    ensures DownDone(r[k := XorWord(r[k], Moved(r, m, k))], p, m, k)
  {
    hide XorWord, Moved;
    XorBack(r[k], Moved(r, m, k));
    forall j | k <= j < 2 * m
      ensures Moved(r[k := XorWord(r[k], Moved(r, m, k))], m, j) == Moved(r, m, j)
    {
      MovesSame(r, m, k, j);
    }
  }

  lemma DownEnds(r: seq<Word256>, p: seq<Word256>, m: nat, first: nat, end: nat)
    requires |p| == 2 * m && Shifts(m)
    requires if m < WIDTH then first == 0 && end == m + 1 else first == m / WIDTH && end == m / WIDTH + m
    ensures DownDone(p, p, m, end) && end <= 2 * m
    ensures DownDone(r, p, m, first) ==> |r| == 2 * m && UpBlock(r, m) == p
  {
    hide XorWord, ShiftIn, ZeroWord;
    forall j | end <= j < 2 * m
      ensures XorWord(p[j], Moved(p, m, j)) == p[j]
    {
      XorBack(p[j], ZeroWord());
    }
    if DownDone(r, p, m, first) {
      forall j | 0 <= j < 2 * m
        ensures UpBlock(r, m)[j] == p[j]
      {
        UpBlockAt(r, m, j);
        if j < first {
          XorBack(p[j], ZeroWord());
        }
      }
    }
  }

  method NarrowDown(a: array<Word256>, at: nat, m: nat)
    requires 1 <= m <= WIDTH / 2 && at + 2 * m <= a.Length
    modifies a
    ensures UpBlock(a[at..at + 2 * m], m) == old(a[at..at + 2 * m])
    ensures forall q :: 0 <= q < a.Length && !(at <= q < at + 2 * m) ==> a[q] == old(a[q])
  {
    hide XorWord, ShiftIn, ZeroWord, Moved, UpBlock, DownDone;
    ghost var p := a[at..at + 2 * m];
    DownEnds(p, p, m, 0, m + 1);
    DownStep(a[at..at + 2 * m], p, m, m);
    NarrowMoved(a[at..at + 2 * m], m, m);
    AddTo(a, at, m, m, ShiftIn(m, ZeroWord(), a[at + 2 * m - 1]));
    for i := 0 to m - 1
      invariant DownDone(a[at..at + 2 * m], p, m, m - i)
      invariant forall q :: 0 <= q < a.Length && !(at <= q < at + 2 * m) ==> a[q] == old(a[q])
    {
      DownStep(a[at..at + 2 * m], p, m, m - 1 - i);
      NarrowMoved(a[at..at + 2 * m], m, m - 1 - i);
      AddTo(a, at, m, m - 1 - i, ShiftIn(m, a[at + 2 * m - 1 - i], a[at + 2 * m - 2 - i]));
    }
    DownStep(a[at..at + 2 * m], p, m, 0);
    NarrowMoved(a[at..at + 2 * m], m, 0);
    AddTo(a, at, m, 0, ShiftIn(m, a[at + m], ZeroWord()));
    DownEnds(a[at..at + 2 * m], p, m, 0, m + 1);
  }

  method WideDown(a: array<Word256>, at: nat, m: nat, t: nat)
    requires m == WIDTH * t && t >= 1 && at + 2 * m <= a.Length
    modifies a
    ensures UpBlock(a[at..at + 2 * m], m) == old(a[at..at + 2 * m])
    ensures forall q :: 0 <= q < a.Length && !(at <= q < at + 2 * m) ==> a[q] == old(a[q])
  {
    hide XorWord, ZeroWord, Moved, UpBlock, DownDone;
    ghost var p := a[at..at + 2 * m];
    DownEnds(p, p, m, t, t + m);
    for i := m downto 0
      invariant DownDone(a[at..at + 2 * m], p, m, t + i)
      invariant forall q :: 0 <= q < a.Length && !(at <= q < at + 2 * m) ==> a[q] == old(a[q])
    {
      DownStep(a[at..at + 2 * m], p, m, t + i);
      WideMoved(a[at..at + 2 * m], m, t, t + i);
      AddTo(a, at, m, t + i, a[at + m + i]);
    }
    DownEnds(a[at..at + 2 * m], p, m, t, t + m);
  }

  // Levels, on every block of the vector.

  /** The size of the upper half of a block of level i, in bits, and the offset of its second copy. */
  function HalfBits(i: nat): (n: nat)
    requires i >= 1
    ensures n >= 1
  {
    PowPositive(i - 1);
    WIDTH * Pow2(i - 1)
  }

  lemma PowPositive(k: nat)
    ensures Pow2(k) >= 1
  {}

  function Offset(i: nat): seq<nat>
    requires i >= 1
  {
    [(WIDTH - 1) * Pow2(i - 1)]
  }

  /** One block of a level changes its own bits alone. */
  lemma WordBlockMaps(before: seq<Word256>, after: seq<Word256>, at: nat, m: nat, up: bool)
    requires |before| == |after| && at + 2 * m <= |before| && Shifts(m)
    requires if up then after[at..at + 2 * m] == UpBlock(before[at..at + 2 * m], m)
      else UpBlock(after[at..at + 2 * m], m) == before[at..at + 2 * m]
    requires forall q :: 0 <= q < |before| && !(at <= q < at + 2 * m) ==> after[q] == before[q]
    ensures WIDTH * at + 2 * (WIDTH * m) <= |Flat(before)| == |Flat(after)|
    ensures BlockMaps(XorBits(), Flat(before), Flat(after), WIDTH * at, WIDTH * m, [(WIDTH - 1) * m], up)
  {
    hide Flat, UpBlock, Expanded;
    var end := at + 2 * m;
    FlatPart(before, at, end);
    FlatPart(after, at, end);
    UpBlockExpands(before[at..end], m);
    UpBlockExpands(after[at..end], m);
    assert after[0..at] == before[0..at];
    assert after[end..|after|] == before[end..|before|];
    FlatPart(before, 0, at);
    FlatPart(after, 0, at);
    FlatPart(before, end, |before|);
    FlatPart(after, end, |after|);
    assert WIDTH * at + 2 * (WIDTH * m) == WIDTH * end;
    assert Flat(before)[WIDTH * end..] == Flat(before)[WIDTH * end..WIDTH * |before|];
    assert Flat(after)[WIDTH * end..] == Flat(after)[WIDTH * end..WIDTH * |after|];
    assert Flat(before)[..WIDTH * at] == Flat(before)[WIDTH * 0..WIDTH * at];
    assert Flat(after)[..WIDTH * at] == Flat(after)[WIDTH * 0..WIDTH * at];
  }

  /** One block of level i, in either direction. */
  method WordBlock(a: array<Word256>, at: nat, i: nat, up: bool)
    requires i >= 1 && at + Pow2(i) <= a.Length
    modifies a
    ensures Pow2(i) == 2 * Pow2(i - 1) && WIDTH * at + 2 * HalfBits(i) <= |Flat(old(a[..]))|
    ensures BlockMaps(XorBits(), Flat(old(a[..])), Flat(a[..]), WIDTH * at, HalfBits(i), Offset(i), up)
  {
    hide Pow2, Flat, UpBlock, BlockMaps;
    ghost var before := a[..];
    LevelShifts(i);
    var m := Pow2(i - 1);
    assert before[at..at + 2 * m] == a[at..at + 2 * m];
    if i <= 8 {
      if up { NarrowUp(a, at, m); } else { NarrowDown(a, at, m); }
    } else {
      var t := Pow2(i - 9);
      assert m == WIDTH * t && t >= 1 by {
        PowPositive(i - 9);
      }
      if up { WideUp(a, at, m, t); } else { WideDown(a, at, m, t); }
    }
    assert a[..][at..at + 2 * m] == a[at..at + 2 * m];
    WordBlockMaps(before, a[..], at, m, up);
  }

  /** Level i on all of its blocks. */
  method WordLevel(a: array<Word256>, blocks: nat, i: nat, up: bool)
    requires i >= 1 && a.Length == blocks * Pow2(i)
    modifies a
    ensures LevelMaps(XorBits(), Flat(old(a[..])), Flat(a[..]), HalfBits(i), Offset(i), up)
  {
    hide Pow2, Flat, BlockMaps, LevelDone, LevelMaps, HalfBits, Offset;
    ghost var s, n := Flat(a[..]), HalfBits(i);
    LevelStart(XorBits(), s, n, Offset(i), up);
    for j := 0 to blocks
      invariant j * (2 * n) <= |s| && |Flat(a[..])| == |s|
      invariant LevelDone(XorBits(), Flat(a[..]), s, j, n, Offset(i), up)
    {
      BlockAt(blocks, i, j);
      ghost var before := Flat(a[..]);
      WordBlock(a, j * Pow2(i), i, up);
      BlockDone(XorBits(), before, Flat(a[..]), s, j, n, Offset(i), up, j * (2 * n));
    }
    BlockEnd(blocks, i);
    LevelEnd(XorBits(), Flat(a[..]), s, blocks, n, Offset(i), up);
  }

  lemma BlockAt(blocks: nat, i: nat, j: nat)
    requires i >= 1 && j < blocks
    ensures j * Pow2(i) + Pow2(i) <= blocks * Pow2(i)
    ensures WIDTH * (j * Pow2(i)) == j * (2 * HalfBits(i))
    ensures (j + 1) * (2 * HalfBits(i)) == j * (2 * HalfBits(i)) + 2 * HalfBits(i)
    ensures (j + 1) * (2 * HalfBits(i)) <= WIDTH * (blocks * Pow2(i))
  {
    var u := Pow2(i);
    Next(j, u);
    MulLe(j + 1, blocks, u);
    assert 2 * HalfBits(i) == WIDTH * u;
    BitsOfBlocks(j, u);
    BitsOfBlocks(j + 1, u);
    Next(j, WIDTH * u);
  }

  lemma BitsOfBlocks(j: nat, u: nat)
    ensures WIDTH * (j * u) == j * (WIDTH * u)
  {}

  lemma BlockEnd(blocks: nat, i: nat)
    requires i >= 1
    ensures blocks * (2 * HalfBits(i)) == WIDTH * (blocks * Pow2(i))
  {
    BitsOfBlocks(blocks, Pow2(i));
    assert 2 * HalfBits(i) == WIDTH * Pow2(i);
  }

  /** The bits after levels 1 to k, multiplied out: the lowest first. */
  function Substituted(bits: seq<bool>, k: nat): (r: seq<bool>)
    ensures |r| == |bits|
  {
    if k == 0 then bits else ExpandLevel(XorBits(), Substituted(bits, k - 1), HalfBits(k), Offset(k))
  }

  lemma GoodOffset(i: nat)
    requires i >= 1
    ensures GoodOffsets(Offset(i), HalfBits(i))
  {
    PowPositive(i - 1);
  }

  lemma {:induction false} SubstitutionInjective(s: seq<bool>, t: seq<bool>, k: nat)
    requires |s| == |t| && Substituted(s, k) == Substituted(t, k)
    ensures s == t
  {
    hide HalfBits, Offset, ExpandLevel, XorLaws;
    if k > 0 {
      BitXorLaws();
      GoodOffset(k);
      LevelInjective(false, XorBits(), Substituted(s, k - 1), Substituted(t, k - 1), HalfBits(k), Offset(k));
      SubstitutionInjective(s, t, k - 1);
    }
  }

  lemma BlockCount(logn: nat, i: nat)
    requires 1 <= i <= logn
    ensures Pow2(logn) == Pow2(logn - i) * Pow2(i)
  {
    Pow2Plus(logn - i, i);
  }

  /** Undoes the substitution: within words up to level eight, by whole words above. */
  method InverseSubstitution(a: array<Word256>, logn: nat)
    requires a.Length == Pow2(logn)
    modifies a
    ensures Flat(a[..]) == Substituted(Flat(old(a[..])), logn)
  {
    hide Pow2, Flat, HalfBits, Offset, ExpandLevel;
    ghost var s := Flat(a[..]);
    var low := if logn > 8 then 8 else logn;
    for i := 1 to low + 1
      invariant Flat(a[..]) == Substituted(s, i - 1)
    {
      BlockCount(logn, i);
      WordLevel(a, Pow2(logn - i), i, true);
    }
    for i := low + 1 to logn + 1
      invariant Flat(a[..]) == Substituted(s, i - 1)
    {
      BlockCount(logn, i);
      WordLevel(a, Pow2(logn - i), i, true);
    }
  }

  /** The substitution of x^(256 m) + x^m for a power of x, at every level: the highest level first. */
  method Substitution(a: array<Word256>, logn: nat)
    requires a.Length == Pow2(logn)
    modifies a
    ensures Substituted(Flat(a[..]), logn) == Flat(old(a[..]))
  {
    hide Pow2, Flat, HalfBits, Offset, ExpandLevel, Substituted;
    ghost var s := Flat(a[..]);
    var i: nat := logn;
    SubstitutedFrom(Flat(a[..]), i, logn);
    while i > 8
      invariant i <= logn && SubstitutedAfter(Flat(a[..]), i, logn) == s
    {
      BlockCount(logn, i);
      ghost var before := Flat(a[..]);
      WordLevel(a, Pow2(logn - i), i, false);
      SubstitutedStep(before, Flat(a[..]), i, logn);
      i := i - 1;
    }
    while i > 0
      invariant i <= logn && SubstitutedAfter(Flat(a[..]), i, logn) == s
    {
      BlockCount(logn, i);
      ghost var before := Flat(a[..]);
      WordLevel(a, Pow2(logn - i), i, false);
      SubstitutedStep(before, Flat(a[..]), i, logn);
      i := i - 1;
    }
    SubstitutedAll(Flat(a[..]), logn);
  }

  /** The bits after levels i + 1 to k. */
  ghost function SubstitutedAfter(bits: seq<bool>, i: nat, k: nat): (r: seq<bool>)
    ensures |r| == |bits|
  {
    if k <= i then bits else ExpandLevel(XorBits(), SubstitutedAfter(bits, i, k - 1), HalfBits(k), Offset(k))
  }

  lemma SubstitutedFrom(bits: seq<bool>, i: nat, k: nat)
    requires k <= i
    ensures SubstitutedAfter(bits, i, k) == bits
  {}

  lemma {:induction false} SubstitutedStep(before: seq<bool>, after: seq<bool>, i: nat, k: nat)
    requires 1 <= i <= k && ExpandLevel(XorBits(), after, HalfBits(i), Offset(i)) == before
    ensures SubstitutedAfter(after, i - 1, k) == SubstitutedAfter(before, i, k)
  {
    hide HalfBits, Offset, ExpandLevel;
    if i < k {
      SubstitutedStep(before, after, i, k - 1);
    }
  }

  lemma {:induction false} SubstitutedAll(bits: seq<bool>, k: nat)
    ensures SubstitutedAfter(bits, 0, k) == Substituted(bits, k)
  {
    hide HalfBits, Offset, ExpandLevel;
    if k > 0 {
      SubstitutedAll(bits, k - 1);
    }
  }

  lemma {:induction false} FlatInjective(a: seq<Word256>, b: seq<Word256>)
    requires |a| == |b| && Flat(a) == Flat(b)
    ensures a == b
  {
    forall k | 0 <= k < |a|
      ensures a[k] == b[k]
    {
      forall c | 0 <= c < WIDTH
        ensures a[k][c] == b[k][c]
      {
        FlatAt(a, k, c);
        FlatAt(b, k, c);
      }
    }
  }

  /** f is g converted: multiplied out through m1 and m2 to w, and the variable substituted back. */
  ghost predicate Converts(
    g: seq<Word256>, m1: seq<Word256>, m2: seq<Word256>, w: seq<Word256>, f: seq<Word256>, logn: nat)
  {
    && MultipliesOut(XorWord, g, m1, m2, w, logn)
    && Flat(f) == Substituted(Flat(w), logn)
  }

  /** The driver to the monomial basis: the levels, then the substitution undone. */
  method BcToMono(a: array<Word256>, logn: nat)
    returns (ghost m1: seq<Word256>, ghost m2: seq<Word256>, ghost w: seq<Word256>)
    requires a.Length == Pow2(logn) && logn <= TOP_LEVEL
    modifies a
    ensures Converts(old(a[..]), m1, m2, w, a[..], logn)
  {
    hide Pow2, Flat, XorLaws, MultipliesOut, Substituted, XorWord, ZeroWord;
    WordXorLaws();
    m1, m2 := ToMono(ZeroWord(), XorWord, a, logn);
    w := a[..];
    InverseSubstitution(a, logn);
  }

  /** The driver from the monomial basis: the substitution, then the levels. */
  method BcToLch(a: array<Word256>, logn: nat)
    returns (ghost m1: seq<Word256>, ghost m2: seq<Word256>, ghost w: seq<Word256>)
    requires a.Length == Pow2(logn) && logn <= TOP_LEVEL
    modifies a
    ensures Converts(a[..], m1, m2, w, old(a[..]), logn)
  {
    hide Pow2, Flat, XorLaws, MultipliesOut, Substituted, XorWord, ZeroWord;
    WordXorLaws();
    Substitution(a, logn);
    w := a[..];
    m1, m2 := ToLch(ZeroWord(), XorWord, a, logn);
  }

  /** Each side of the whole conversion determines the other. */
  lemma WholeDetermines(
    g: seq<Word256>, m1: seq<Word256>, m2: seq<Word256>, w: seq<Word256>, f: seq<Word256>,
    g': seq<Word256>, m1': seq<Word256>, m2': seq<Word256>, w': seq<Word256>, f': seq<Word256>, logn: nat)
    requires |f| == |w| && |f'| == |w'| && |w| == |w'|
    requires Converts(g, m1, m2, w, f, logn) && Converts(g', m1', m2', w', f', logn)
    ensures g == g' <==> f == f'
  {
    hide Pow2, Flat, XorLaws, MultipliesOut, Substituted, XorWord, ZeroWord;
    WordXorLaws();
    ConversionDetermines(ZeroWord(), XorWord, g, m1, m2, w, g', m1', m2', w', logn);
    if f == f' {
      SubstitutionInjective(Flat(w), Flat(w'), logn);
      FlatInjective(w, w');
    }
    if g == g' {
      FlatInjective(f, f');
    }
  }

  /** The two drivers, one after the other, give the vector back, in both orders. */
  method DriversThereAndBack(a: array<Word256>, logn: nat, monoFirst: bool)
    requires a.Length == Pow2(logn) && logn <= TOP_LEVEL
    modifies a
    ensures a[..] == old(a[..])
  {
    hide Pow2, Flat, MultipliesOut, Substituted, XorWord;
    ghost var s := a[..];
    ghost var m1, m2, w, k1, k2, v;
    if monoFirst {
      m1, m2, w := BcToMono(a, logn);
      ghost var t := a[..];
      k1, k2, v := BcToLch(a, logn);
      SameLengths(s, m1, m2, w, t, logn);
      SameLengths(a[..], k1, k2, v, t, logn);
      WholeDetermines(s, m1, m2, w, t, a[..], k1, k2, v, t, logn);
    } else {
      m1, m2, w := BcToLch(a, logn);
      ghost var t := a[..];
      k1, k2, v := BcToMono(a, logn);
      SameLengths(t, m1, m2, w, s, logn);
      SameLengths(t, k1, k2, v, a[..], logn);
      WholeDetermines(t, m1, m2, w, s, t, k1, k2, v, a[..], logn);
    }
  }

  lemma SameLengths(
    g: seq<Word256>, m1: seq<Word256>, m2: seq<Word256>, w: seq<Word256>, f: seq<Word256>, logn: nat)
    requires Converts(g, m1, m2, w, f, logn)
    ensures |g| == |w| == |f| == Pow2(logn)
  {
    hide Pow2, Flat, Substituted, XorWord, ExpandLevels, ChunksMap;
    assert |Flat(f)| == |Substituted(Flat(w), logn)| == |Flat(w)|;
  }
}
