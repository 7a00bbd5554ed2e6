/** Turning a hash into the distinct sparse columns of a row, one hash or thirty-two hashes at a time. */
module PaxosHash {
  import opened Algebra
  import opened WeightSets
  import opened Words
  import opened Libdivide
  import BlockField

  type Block = BlockField.Block

  const LANES := 32
  const WORD := 64

  /** The number in the n bits from bit `at` on. */
  function Number(h: Block, at: nat, n: nat): (x: nat)
    requires at + n <= BlockField.BITS
    ensures x < Pow2(n)
    decreases n
  {
    if n == 0 then 0 else (if h[at] then 1 else 0) + 2 * Number(h, at + 1, n - 1)
  }

  /** The 64-bit number that starts at 32-bit word i. */
  function WordAt(h: Block, i: nat): (x: nat)
    requires i <= 2
    ensures x < Pow2(WORD)
  {
    Number(h, 32 * i, WORD)
  }

  // Remainders by a precomputed divider.

  /** The remainder from the quotient that the divider gives. */
  lemma RemainderByDivider(x: nat, m: nat)
    requires 0 < m < Pow2(WORD) && x < Pow2(WORD)
    ensures Wrap(WORD, x - Do(W64, x, DividerOf(WORD, m, false)) * m) == x % m
  {
    hide Pow2, Do, DividerOf, Wrap;
    DoDivides(W64, m, x);
    DivMod(x, m);
    assert x - x / m * m == x % m;
    WrapSmall(WORD, x % m);
  }

  /** Reduces thirty-two words by the modulus, each by a division with the precomputed divider. */
  method Mod32(vals: array<nat>, divider: Divider, modVal: nat)
    requires vals.Length == LANES && 0 < modVal < Pow2(WORD) && divider == DividerOf(WORD, modVal, false)
    requires forall k :: 0 <= k < LANES ==> vals[k] < Pow2(WORD)
    modifies vals
    ensures forall k :: 0 <= k < LANES ==> vals[k] == old(vals[k]) % modVal
  {
    hide Pow2, Do, DividerOf, Wrap;
    for i := 0 to LANES
      invariant forall k :: 0 <= k < LANES ==> vals[k] == if k < i then old(vals[k]) % modVal else old(vals[k])
    {
      RemainderByDivider(vals[i], modVal);
      vals[i] := Wrap(WORD, vals[i] - Do(W64, vals[i], divider) * modVal);
    }
  }

  // The k-th number that a row does not hold yet.

  ghost predicate Increasing(row: seq<nat>) {
    forall i, j :: 0 <= i < j < |row| ==> row[i] < row[j]
  }

  function Missing(row: seq<nat>, k: nat): nat {
    if row == [] || row[0] > k then k else Missing(row[1..], k + 1)
  }

  /** The numbers below r that the row does not hold. */
  ghost function Gaps(row: seq<nat>, r: nat): set<nat> {
    Below(r) - Entries(row)
  }

  lemma {:induction false} MissingIsNew(row: seq<nat>, k: nat)
    requires Increasing(row)
    ensures k <= Missing(row, k) <= k + |row| && Missing(row, k) !in row
  {
    if row != [] && row[0] <= k {
      MissingIsNew(row[1..], k + 1);
      assert row == [row[0]] + row[1..];
    }
  }

  /** Exactly k numbers below it are missing from the row as well: it is the missing number of rank k. */
  lemma {:induction false} MissingRank(row: seq<nat>, k: nat)
    requires Increasing(row)
    ensures |Gaps(row, Missing(row, k))| == k
  {
    if row == [] || row[0] > k {
      NothingHeld(row, k);
    } else {
      MissingIsNew(row[1..], k + 1);
      MissingRank(row[1..], k + 1);
      FirstHeld(row, Missing(row, k));
    }
  }

  lemma NothingHeld(row: seq<nat>, k: nat)
    requires Increasing(row) && (row == [] || row[0] > k)
    ensures Gaps(row, k) == Below(k)
  {
    forall x | x in Entries(row)
      ensures x >= k
    {
      var i :| 0 <= i < |row| && row[i] == x;
    }
  }

  lemma FirstHeld(row: seq<nat>, r: nat)
    requires Increasing(row) && row != [] && row[0] < r
    ensures |Gaps(row[1..], r)| == |Gaps(row, r)| + 1
  {
    assert row == [row[0]] + row[1..];
    assert Entries(row) == {row[0]} + Entries(row[1..]);
    assert row[0] !in row[1..];
    assert Gaps(row[1..], r) == Gaps(row, r) + {row[0]};
  }

  // Rows of any weight but three: sorted, each column inserted where it belongs.

  /** The row with the missing number of rank k inserted in order. */
  function Inserted(row: seq<nat>, k: nat): (r: seq<nat>)
    requires Increasing(row)
  {
    MissingIsNew(row, k);
    var m := Missing(row, k);
    row[..m - k] + [m] + row[m - k..]
  }

  /** The entries before the missing number are the ones it was raised past. */
  lemma {:induction false} MissingSplits(row: seq<nat>, k: nat)
    requires Increasing(row)
    ensures k <= Missing(row, k) <= k + |row|
    ensures forall i :: 0 <= i < Missing(row, k) - k ==> row[i] < Missing(row, k)
    ensures forall i :: Missing(row, k) - k <= i < |row| ==> row[i] > Missing(row, k)
  {
    MissingIsNew(row, k);
    if row != [] && row[0] <= k {
      var rest := row[1..];
      MissingSplits(rest, k + 1);
      forall i | 0 <= i < Missing(row, k) - k
        ensures row[i] < Missing(row, k)
      {
        assert i > 0 ==> row[i] == rest[i - 1];
      }
      forall i | Missing(row, k) - k <= i < |row|
        ensures row[i] > Missing(row, k)
      {
        assert row[i] == rest[i - 1];
      }
    }
  }

  lemma InsertedIncreases(row: seq<nat>, k: nat)
    requires Increasing(row)
    ensures Increasing(Inserted(row, k)) && |Inserted(row, k)| == |row| + 1
    ensures Entries(Inserted(row, k)) == Entries(row) + {Missing(row, k)}
  {
    hide Missing, Increasing;
    MissingSplits(row, k);
    InsertedAt(row, Missing(row, k) - k, Missing(row, k));
  }

  lemma InsertedAt(row: seq<nat>, i: nat, m: nat)
    requires Increasing(row) && i <= |row|
    requires (forall q :: 0 <= q < i ==> row[q] < m) && (forall q :: i <= q < |row| ==> row[q] > m)
    ensures Increasing(row[..i] + [m] + row[i..]) && Entries(row[..i] + [m] + row[i..]) == Entries(row) + {m}
  {
    var r := row[..i] + [m] + row[i..];
    assert forall q :: 0 <= q < |r| ==> r[q] == if q < i then row[q] else if q == i then m else row[q - 1];
    assert row == row[..i] + row[i..];
  }

  /** The hash squared j times. */
  function Squared(h: Block, j: nat): Block {
    if j == 0 then h else BlockField.Times(Squared(h, j - 1), Squared(h, j - 1))
  }

  /** The rank of column j among the columns that the row does not hold yet. */
  function Rank(h: Block, j: nat, n: nat): nat
    requires j < n
  {
    WordAt(Squared(h, j + 1), 0) % (n - j)
  }

  /** The first w columns. */
  function Chosen(h: Block, w: nat, n: nat): (row: seq<nat>)
    requires w <= n
    ensures Increasing(row)
  {
    if w == 0 then [] else
    InsertedIncreases(Chosen(h, w - 1, n), Rank(h, w - 1, n));
    Inserted(Chosen(h, w - 1, n), Rank(h, w - 1, n))
  }

  /** The columns are distinct and in range, for every hash and every weight. */
  lemma {:induction false} ChosenInRange(h: Block, w: nat, n: nat)
    requires w <= n
    ensures |Chosen(h, w, n)| == w && InRange(Chosen(h, w, n), n) && Distinct(Chosen(h, w, n))
  {
    hide Rank, Inserted, Missing;
    if w > 0 {
      ChosenInRange(h, w - 1, n);
      ChosenStep(Chosen(h, w - 1, n), Rank(h, w - 1, n), n);
      RankBound(h, w - 1, n);
    }
  }

  lemma RankBound(h: Block, j: nat, n: nat)
    requires j < n
    ensures Rank(h, j, n) < n - j
  {}

  lemma ChosenStep(row: seq<nat>, k: nat, n: nat)
    requires Increasing(row) && InRange(row, n)
    ensures Increasing(Inserted(row, k)) && |Inserted(row, k)| == |row| + 1
    ensures k + |row| < n ==> InRange(Inserted(row, k), n)
  {
    hide Missing, Increasing, Inserted, Entries;
    MissingSplits(row, k);
    InsertedIncreases(row, k);
    if k + |row| < n {
      EntriesInRange(row, Missing(row, k), Inserted(row, k), n);
    }
  }

  lemma EntriesInRange(row: seq<nat>, m: nat, r: seq<nat>, n: nat)
    requires Entries(r) == Entries(row) + {m} && InRange(row, n) && m < n
    ensures InRange(r, n)
  {
    forall j | 0 <= j < |r|
      ensures r[j] < n
    {
      assert r[j] in Entries(r);
    }
  }

  /** Raises the next column past the smaller ones, which come first. */
  method FindPlace(row: array<nat>, at: nat, j: nat, rank: nat) returns (colIdx: nat, iter: nat)
    requires at + j < row.Length && Increasing(row[at..at + j])
    ensures colIdx == Missing(row[at..at + j], rank) && iter == at + (colIdx - rank) <= at + j && rank <= colIdx
  {
    ghost var before := row[at..at + j];
    MissingIsNew(before, rank);
    colIdx, iter := rank, at;
    while iter != at + j
      invariant at <= iter <= at + j && colIdx == rank + (iter - at)
      invariant Missing(before, rank) == Missing(before[iter - at..], colIdx)
      decreases at + j - iter
    {
      ghost var rest := before[iter - at..];
      assert rest[0] == row[iter] && rest[1..] == before[iter + 1 - at..];
      if row[iter] <= colIdx {
        colIdx := colIdx + 1;
      } else {
        break;
      }
      iter := iter + 1;
    }
  }

  /** Shifts the entries from iter on up by one. */
  method ShiftUp(row: array<nat>, iter: nat, last: nat)
    requires iter <= last < row.Length
    modifies row
    ensures row[iter + 1..last + 1] == old(row[iter..last])
    ensures forall q :: 0 <= q < row.Length && !(iter <= q <= last) ==> row[q] == old(row[q])
  {
    var end := last;
    while iter != end
      invariant iter <= end <= last
      invariant forall q :: 0 <= q < row.Length && (q < end || q > last) ==> row[q] == old(row[q])
      invariant forall q :: end < q <= last ==> row[q] == old(row[q - 1])
      decreases end - iter
    {
      row[end] := row[end - 1];
      end := end - 1;
    }
  }

  /** Inserts the next column in order. */
  method InsertColumn(row: array<nat>, at: nat, j: nat, rank: nat)
    requires at + j < row.Length && Increasing(row[at..at + j])
    modifies row
    ensures row[at..at + j + 1] == Inserted(old(row[at..at + j]), rank)
    ensures forall q :: 0 <= q < row.Length && !(at <= q <= at + j) ==> row[q] == old(row[q])
  {
    hide Missing, Increasing, Inserted;
    ghost var before := row[at..at + j];
    var colIdx, iter := FindPlace(row, at, j, rank);
    ShiftUp(row, iter, at + j);
    row[iter] := colIdx;
    var i := iter - at;
    assert row[iter + 1..at + j + 1] == old(row[iter..at + j]);
    SliceInserted(old(row[..]), row[..], at, iter, at + j);
    assert before == old(row[..])[at..at + j];
    InsertedSlices(before, rank, i);
  }

  /** The slice after the insertion: what stays, the new entry, what moved up. */
  lemma SliceInserted(before: seq<nat>, after: seq<nat>, at: nat, iter: nat, last: nat)
    requires at <= iter <= last < |before| == |after|
    requires forall q :: at <= q < iter ==> after[q] == before[q]
    requires after[iter + 1..last + 1] == before[iter..last]
    ensures after[at..last + 1] == before[at..last][..iter - at] + [after[iter]] + before[at..last][iter - at..]
  {
    assert after[at..iter] == before[at..iter] == before[at..last][..iter - at];
    assert before[iter..last] == before[at..last][iter - at..];
    assert after[at..last + 1] == after[at..iter] + [after[iter]] + after[iter + 1..last + 1];
  }

  lemma InsertedSlices(row: seq<nat>, k: nat, i: nat)
    requires Increasing(row) && Missing(row, k) == i + k
    ensures i <= |row| && Inserted(row, k) == row[..i] + [Missing(row, k)] + row[i..]
  {
    hide Missing, Increasing;
    MissingSplits(row, k);
  }

  /** The row of weight three: its columns are not sorted, only raised past the earlier ones. */
  function Three(a: nat, b: nat, c: nat): seq<nat> {
    var second := Missing([a], b);
    [a, second, Missing(if a < second then [a, second] else [second, a], c)]
  }

  lemma ThreeInRange(a: nat, b: nat, c: nat, n: nat)
    requires n >= 3 && a < n && b < n - 1 && c < n - 2
    ensures InRange(Three(a, b, c), n) && Distinct(Three(a, b, c)) && |Three(a, b, c)| == 3
  {
    MissingIsNew([a], b);
    var second := Missing([a], b);
    MissingIsNew(if a < second then [a, second] else [second, a], c);
  }

  /** The columns of a hash. */
  function RowOf(h: Block, weight: nat, n: nat): seq<nat>
    requires weight <= n && (weight == 3 ==> n >= 3)
  {
    if weight == 3 then Three(WordAt(h, 0) % n, WordAt(h, 1) % (n - 1), WordAt(h, 2) % (n - 2))
    else Chosen(h, weight, n)
  }

  lemma RowOfGood(h: Block, weight: nat, n: nat)
    requires weight <= n
    ensures |RowOf(h, weight, n)| == weight && InRange(RowOf(h, weight, n), n) && Distinct(RowOf(h, weight, n))
  {
    if weight == 3 {
      ThreeInRange(WordAt(h, 0) % n, WordAt(h, 1) % (n - 1), WordAt(h, 2) % (n - 2), n);
    } else {
      ChosenInRange(h, weight, n);
    }
  }

  /** Raises the second and the third column past the earlier ones. */
  method RaiseThree(row: array<nat>, at: nat)
    requires at + 3 <= row.Length
    modifies row
    ensures row[at..at + 3] == Three(old(row[at]), old(row[at + 1]), old(row[at + 2]))
    ensures forall q :: 0 <= q < row.Length && !(at <= q < at + 3) ==> row[q] == old(row[q])
  {
    hide Three;
    RaisedThree(row[at], row[at + 1], row[at + 2]);
    var min := if row[at + 1] < row[at] then row[at + 1] else row[at];
    var max := row[at] + row[at + 1] - min;
    if max == row[at + 1] {
      row[at + 1] := row[at + 1] + 1;
      max := max + 1;
    }
    if row[at + 2] >= min {
      row[at + 2] := row[at + 2] + 1;
    }
    if row[at + 2] >= max {
      row[at + 2] := row[at + 2] + 1;
    }
    assert row[at..at + 3] == [row[at], row[at + 1], row[at + 2]];
  }

  /** Writes the columns of one hash. */
  method BuildRow(h: Block, weight: nat, n: nat, row: array<nat>, at: nat)
    requires weight <= n && at + weight <= row.Length
    modifies row
    ensures row[at..at + weight] == RowOf(h, weight, n)
    ensures forall q :: 0 <= q < row.Length && !(at <= q < at + weight) ==> row[q] == old(row[q])
  {
    hide WordAt, Three, Chosen;
    if weight == 3 {
      row[at] := WordAt(h, 0) % n;
      row[at + 1] := WordAt(h, 1) % (n - 1);
      row[at + 2] := WordAt(h, 2) % (n - 2);
      RaiseThree(row, at);
    } else {
      BuildChosen(h, weight, n, row, at);
    }
  }

  lemma ChosenNext(h: Block, j: nat, n: nat)
    requires j < n
    ensures Squared(h, j + 1) == BlockField.Times(Squared(h, j), Squared(h, j))
    ensures Chosen(h, j + 1, n) == Inserted(Chosen(h, j, n), WordAt(Squared(h, j + 1), 0) % (n - j))
  {
    hide BlockField.Times, WordAt, Inserted;
  }

  method BuildChosen(h: Block, weight: nat, n: nat, row: array<nat>, at: nat)
    requires weight <= n && at + weight <= row.Length
    modifies row
    ensures row[at..at + weight] == Chosen(h, weight, n)
    ensures forall q :: 0 <= q < row.Length && !(at <= q < at + weight) ==> row[q] == old(row[q])
  {
    hide WordAt, Inserted, BlockField.Times, Chosen, Squared, Increasing;
    ChosenStart(h, n);
    var hh := h;
    for j := 0 to weight
      invariant hh == Squared(h, j) && row[at..at + j] == Chosen(h, j, n)
      invariant forall q :: 0 <= q < row.Length && !(at <= q < at + j) ==> row[q] == old(row[q])
    {
      ChosenNext(h, j, n);
      hh := BlockField.Times(hh, hh);
      InsertColumn(row, at, j, WordAt(hh, 0) % (n - j));
    }
  }

  lemma ChosenStart(h: Block, n: nat)
    ensures Squared(h, 0) == h && Chosen(h, 0, n) == []
  {}

  /** The comparisons of the weight-three row raise each column past the earlier ones. */
  lemma RaisedThree(a: nat, b: nat, c: nat)
    ensures var second := if b >= a then b + 1 else b;
      var min, max := if b < a then b else a, if b < a then a else b + 1;
      var raised := if c >= min then c + 1 else c;
      Three(a, b, c) == [a, second, if raised >= max then raised + 1 else raised]
  {
    var second := Missing([a], b);
    MissingOfOne(a, b);
    if a < second {
      MissingOfTwo(a, second, c);
    } else {
      MissingOfTwo(second, a, c);
    }
  }

  lemma MissingOfOne(x: nat, c: nat)
    ensures Missing([x], c) == if c >= x then c + 1 else c
  {
    var rest: seq<nat> := [x][1..];
    assert rest == [];
  }

  lemma MissingOfTwo(x: nat, y: nat, c: nat)
    requires x < y
    ensures Missing([x, y], c) == if c < x then c else if c + 1 < y then c + 1 else c + 2
  {
    assert [x, y][1..] == [y];
    MissingOfOne(y, c + 1);
  }

  // Thirty-two rows at a time: comparisons become masks of 64 equal bits.

  function AllOnes(): nat {
    Pow2(WORD) - 1
  }

  /** A word as a signed number, as the vector comparison reads it. */
  function Signed(x: nat): int {
    if x >= Pow2(WORD - 1) then x - Pow2(WORD) else x
  }

  function GreaterMask(x: nat, y: nat): nat {
    if Signed(x) > Signed(y) then AllOnes() else 0
  }

  function EqualMask(x: nat, y: nat): nat {
    if x == y then AllOnes() else 0
  }

  /** Subtracting a mask adds one where the mask is set. */
  lemma SubMask(x: nat, mask: nat)
    requires x + 1 < Pow2(WORD) && (mask == 0 || mask == AllOnes())
    ensures Wrap(WORD, x - mask) == if mask == 0 then x else x + 1
  {
    hide Pow2;
    if mask == 0 {
      SmallMod(x, Pow2(WORD));
    } else {
      ModShift(x + 1, Pow2(WORD), -1);
      SmallMod(x + 1, Pow2(WORD));
    }
  }

  lemma NotMask(mask: nat)
    requires mask == 0 || mask == AllOnes()
    ensures Xor(mask, AllOnes()) == if mask == 0 then AllOnes() else 0
  {
    hide Pow2;
    XorTwice(0, AllOnes());
  }

  lemma MaskSmall(x: nat, y: nat)
    requires x < Pow2(WORD - 1) && y < Pow2(WORD - 1)
    ensures GreaterMask(x, y) == if x > y then AllOnes() else 0
  {
    hide Pow2;
  }

  /** The masked exclusive ors select the larger and the smaller of two words. */
  lemma MaskedExtremes(a: nat, b: nat)
    requires a < Pow2(WORD - 1) && b < Pow2(WORD - 1)
    ensures var max := Xor(And(Xor(a, b), GreaterMask(a, b)), b);
      max == (if a > b then a else b) && Xor(Xor(a, b), max) == if a > b then b else a
  {
    hide Pow2;
    MaskSmall(a, b);
    AndZero(Xor(a, b));
    XorTwice(a, b);
    XorTwice(b, a);
    XorOrder(a, b);
    HalfOfWord();
    XorBelow(WORD, a, b);
    AndOnes(WORD, Xor(a, b));
  }

  lemma HalfOfWord()
    ensures Pow2(WORD) == 2 * Pow2(WORD - 1)
  {}

  /** Raises the second and the third column without branching. */
  method RaiseLane(a: nat, b: nat, c: nat) returns (second: nat, third: nat)
    requires a < Pow2(WORD - 1) && b < Pow2(WORD - 1) && c < Pow2(WORD - 1)
    requires a + 1 < Pow2(WORD - 1) && b + 1 < Pow2(WORD - 1) && c + 2 < Pow2(WORD - 1)
    ensures [a, second, third] == Three(a, b, c)
  {
    hide Pow2, And, Xor, GreaterMask, AllOnes, Three, Wrap;
    HalfOfWord();
    MaskedExtremes(a, b);
    var mask := GreaterMask(a, b);
    var min := Xor(a, b);
    var max := And(min, mask);
    max := Xor(max, b);
    min := Xor(min, max);
    mask := EqualMask(max, b);
    SubMask(b, mask);
    SubMask(max, mask);
    second := Wrap(WORD, b - mask);
    max := Wrap(WORD, max as int - mask);
    MaskSmall(min, c);
    NotMask(GreaterMask(min, c));
    mask := Xor(GreaterMask(min, c), AllOnes());
    SubMask(c, mask);
    third := Wrap(WORD, c - mask);
    MaskSmall(max, third);
    NotMask(GreaterMask(max, third));
    mask := Xor(GreaterMask(max, third), AllOnes());
    SubMask(third, mask);
    third := Wrap(WORD, third - mask);
    RaisedThree(a, b, c);
    OnesSet();
  }

  lemma OnesSet()
    ensures AllOnes() != 0
  {
    HalfOfWord();
  }

  /** Copies one of the three overlapping words of every hash and reduces them. */
  method LoadColumn(hashes: seq<Block>, i: nat, n: nat, vals: array<nat>)
    requires |hashes| == LANES == vals.Length && i <= 2 < n < Pow2(WORD)
    modifies vals
    ensures forall k :: 0 <= k < LANES ==> vals[k] == WordAt(hashes[k], i) % (n - i)
  {
    hide Pow2, DividerOf, Number;
    for j := 0 to LANES
      invariant forall k :: 0 <= k < j ==> vals[k] == WordAt(hashes[k], i)
    {
      vals[j] := WordAt(hashes[j], i);
    }
    var divider := Gen(W64, n - i, false);
    Mod32(vals, divider.value, n - i);
  }

  lemma SmallSize(n: nat)
    requires n < Pow2(WORD - 1)
    ensures n < Pow2(WORD)
  {
    HalfOfWord();
  }

  /** Where the k-th row starts. */
  function RowStart(at: nat, weight: nat, k: nat): nat {
    at + k * weight
  }

  /** The first m rows are built. */
  ghost predicate RowsBuilt(row: seq<nat>, at: nat, hashes: seq<Block>, weight: nat, n: nat, m: nat)
    requires m <= |hashes| && weight <= n
  {
    forall k :: 0 <= k < m ==> RowBuilt(row, RowStart(at, weight, k), hashes[k], weight, n)
  }

  ghost predicate RowBuilt(row: seq<nat>, start: nat, h: Block, weight: nat, n: nat)
    requires weight <= n
  {
    start + weight <= |row| && row[start..start + weight] == RowOf(h, weight, n)
  }

  lemma StartOrder(at: nat, weight: nat, k: nat, m: nat)
    requires k < m
    ensures at <= RowStart(at, weight, k) && RowStart(at, weight, k) + weight == RowStart(at, weight, k + 1)
    ensures RowStart(at, weight, k) + weight <= RowStart(at, weight, m)
  {
    MulLe(0, k, weight);
    MulLe(k + 1, m, weight);
    Next(k, weight);
  }

  /** Writing the next row keeps the earlier ones. */
  lemma NextRow(row: seq<nat>, row': seq<nat>, at: nat, hashes: seq<Block>, weight: nat, n: nat, k: nat)
    requires k < |hashes| && weight <= n && |row| == |row'| && RowsBuilt(row, at, hashes, weight, n, k)
    requires RowBuilt(row', RowStart(at, weight, k), hashes[k], weight, n)
    requires row'[..RowStart(at, weight, k)] == row[..RowStart(at, weight, k)]
    ensures RowsBuilt(row', at, hashes, weight, n, k + 1)
  {
    hide RowOf, RowStart;
    forall j | 0 <= j < k
      ensures RowBuilt(row', RowStart(at, weight, j), hashes[j], weight, n)
    {
      assert RowBuilt(row, RowStart(at, weight, j), hashes[j], weight, n);
      var start, stop := RowStart(at, weight, j), RowStart(at, weight, k);
      StartOrder(at, weight, j, k);
      PrefixSlice(row', stop, start, weight);
      PrefixSlice(row, stop, start, weight);
    }
  }

  lemma PrefixSlice(s: seq<nat>, stop: nat, start: nat, size: nat)
    requires start + size <= stop <= |s|
    ensures s[..stop][start..start + size] == s[start..start + size]
  {}

  /** The rows of thirty-two hashes of weight three, from three reduced words of each. */
  method BuildThrees(hashes: seq<Block>, n: nat, row: array<nat>, at: nat)
    requires |hashes| == LANES && 3 <= n < Pow2(WORD - 1) && RowStart(at, 3, LANES) <= row.Length
    modifies row
    ensures RowsBuilt(row[..], at, hashes, 3, n, LANES)
    ensures forall q :: 0 <= q < row.Length && !(at <= q < RowStart(at, 3, LANES)) ==> row[q] == old(row[q])
  {
    hide Pow2, RowOf, WordAt, RowBuilt;
    SmallSize(n);
    var first, second, third := new nat[LANES], new nat[LANES], new nat[LANES];
    LoadColumn(hashes, 0, n, first);
    LoadColumn(hashes, 1, n, second);
    LoadColumn(hashes, 2, n, third);
    for k := 0 to LANES
      invariant forall j :: k <= j < LANES ==> first[j] == WordAt(hashes[j], 0) % n
      invariant forall j :: k <= j < LANES ==> second[j] == WordAt(hashes[j], 1) % (n - 1)
      invariant forall j :: k <= j < LANES ==> third[j] == WordAt(hashes[j], 2) % (n - 2)
      invariant RowsBuilt(row[..], at, hashes, 3, n, k)
      invariant forall q :: 0 <= q < row.Length && !(at <= q < RowStart(at, 3, k)) ==> row[q] == old(row[q])
    {
      ghost var before := row[..];
      second[k], third[k] := RaiseLane(first[k], second[k], third[k]);
      row[at + k * 3] := first[k];
      row[at + k * 3 + 1] := second[k];
      row[at + k * 3 + 2] := third[k];
      ThreeBuilt(row[..], RowStart(at, 3, k), hashes[k], n, first[k], second[k], third[k]);
      assert row[..][..RowStart(at, 3, k)] == before[..RowStart(at, 3, k)];
      NextRow(before, row[..], at, hashes, 3, n, k);
    }
  }

  lemma ThreeBuilt(row: seq<nat>, start: nat, h: Block, n: nat, first: nat, second: nat, third: nat)
    requires n >= 3 && start + 3 <= |row| && row[start] == first && row[start + 1] == second && row[start + 2] == third
    requires [first, second, third] == Three(WordAt(h, 0) % n, WordAt(h, 1) % (n - 1), WordAt(h, 2) % (n - 2))
    ensures RowBuilt(row, start, h, 3, n)
  {
    hide WordAt, Three;
    assert row[start..start + 3] == [first, second, third];
  }

  /** The rows of thirty-two hashes, exactly as they are built one by one. */
  method BuildRow32(hashes: seq<Block>, weight: nat, n: nat, row: array<nat>, at: nat)
    requires |hashes| == LANES && weight <= n < Pow2(WORD - 1) && RowStart(at, weight, LANES) <= row.Length
    modifies row
    ensures RowsBuilt(row[..], at, hashes, weight, n, LANES)
    ensures forall q :: 0 <= q < row.Length && !(at <= q < RowStart(at, weight, LANES)) ==> row[q] == old(row[q])
  {
    hide Pow2, RowOf, WordAt, RowStart, RowBuilt;
    if weight == 3 {
      BuildThrees(hashes, n, row, at);
    } else {
      StartsAt(at, weight);
      for k := 0 to LANES
        invariant RowsBuilt(row[..], at, hashes, weight, n, k)
        invariant forall q :: 0 <= q < row.Length && !(at <= q < RowStart(at, weight, k)) ==> row[q] == old(row[q])
      {
        ghost var before := row[..];
        StartOrder(at, weight, k, LANES);
        BuildRow(hashes[k], weight, n, row, RowStart(at, weight, k));
        RowFound(row[..], RowStart(at, weight, k), hashes[k], weight, n);
        assert row[..][..RowStart(at, weight, k)] == before[..RowStart(at, weight, k)];
        NextRow(before, row[..], at, hashes, weight, n, k);
      }
    }
  }

  lemma StartsAt(at: nat, weight: nat)
    ensures RowStart(at, weight, 0) == at
  {}

  lemma RowFound(row: seq<nat>, start: nat, h: Block, weight: nat, n: nat)
    requires weight <= n && start + weight <= |row| && row[start..start + weight] == RowOf(h, weight, n)
    ensures RowBuilt(row, start, h, weight, n)
  {}
}
