/** Decoding with the bits of the dense hash, and the round trip. */
module PaxosBinaryDecode {
  import opened Wrappers
  import opened Algebra
  import opened WeightSets
  import opened SparseMatrix
  import opened Peeling
  import opened LeastWeight
  import opened FCInverse
  import opened FreeDraws
  import opened Gf128
  import opened Okvs
  import opened PaxosCore
  import opened PaxosGf128
  import opened PaxosDecode
  import opened PaxosBinary

  ghost function DecodedBits<V>(s: Space<bool, V>, row: seq<nat>, hash: Hash, p: seq<V>, sparse: nat, d: nat): V
    requires InRange(row, sparse) && |p| == sparse + d && d <= |hash|
  {
    RowValue(s, row, FirstBits(hash, d), p, sparse)
  }

  /** A key decodes to the sum of its sparse columns and of the dense columns whose bit of the hash is set. */
  lemma DecodedIsSelection<V(!new)>(s: Space<bool, V>, row: seq<nat>, hash: Hash, p: seq<V>, sparse: nat, d: nat)
    requires BitLaws(s) && Distinct(row) && InRange(row, sparse) && |p| == sparse + d && d <= |hash|
    ensures DecodedBits(s, row, hash, p, sparse, d) ==
      s.xor(MaskSum(s, Entries(row), p, |p|), MaskSum(s, (set j: nat | j < d && hash[j]), p[sparse..], d))
  {
    hide BitLaws, Laws, MaskSum;
    RingOf(s);
    SparseIsMask(s, row, p, |row|);
    assert row[..|row|] == row;
    BitsSelect(s, hash, p[sparse..], (set j: nat | j < d && hash[j]), d);
  }

  lemma {:induction false} BitsSelect<V(!new)>(s: Space<bool, V>, hash: Hash, p2: seq<V>, mask: set<nat>, n: nat)
    requires BitLaws(s) && n <= |p2| <= |hash| && forall j :: 0 <= j < n ==> (j in mask <==> hash[j])
    ensures Dot(s, FirstBits(hash, |p2|), p2, n) == MaskSum(s, mask, p2, n)
  {
    hide FieldLaws;
    if n > 0 {
      BitsSelect(s, hash, p2, mask, n - 1);
    }
  }

  /** The value of a lane after i dense columns. */
  ghost function BitLane<V>(s: Space<bool, V>, row: seq<nat>, hash: Hash, p: seq<V>, sparse: nat, d: nat, i: nat): V
    requires InRange(row, sparse) && |p| == sparse + d && i <= d <= |hash|
  {
    s.xor(SparseSum(s, row, p, |row|), Dot(s, FirstBits(hash, d), p[sparse..], i))
  }

  lemma BitLaneSteps<V(!new)>(s: Space<bool, V>, row: seq<nat>, hash: Hash, p: seq<V>, sparse: nat, d: nat, i: nat)
    requires BitLaws(s) && InRange(row, sparse) && |p| == sparse + d && i < d <= |hash|
    ensures BitLane(s, row, hash, p, sparse, d, i + 1) ==
      if hash[i] then s.xor(BitLane(s, row, hash, p, sparse, d, i), p[sparse + i])
      else BitLane(s, row, hash, p, sparse, d, i)
  {
    hide FieldLaws, Laws;
    RingOf(s);
    var a, b := SparseSum(s, row, p, |row|), Dot(s, FirstBits(hash, d), p[sparse..], i);
    GroupLaws(s, a, b, p[sparse + i]);
    GroupLaws(s, b, a, a);
  }

  lemma BitLaneEnds<V(!new)>(s: Space<bool, V>, row: seq<nat>, hash: Hash, p: seq<V>, sparse: nat, d: nat)
    requires BitLaws(s) && InRange(row, sparse) && |p| == sparse + d && d <= |hash|
    ensures BitLane(s, row, hash, p, sparse, d, 0) == SparseSum(s, row, p, |row|)
    ensures BitLane(s, row, hash, p, sparse, d, d) == DecodedBits(s, row, hash, p, sparse, d)
  {
    hide FieldLaws, Laws;
    RingOf(s);
    GroupLaws(s, SparseSum(s, row, p, |row|), s.vzero, s.vzero);
  }

  /** Decodes one key. */
  method Decode1Bits<V(!new)>(s: Space<bool, V>, row: seq<nat>, hash: Hash, p: seq<V>, sparse: nat, d: nat)
    returns (value: V)
    requires BitLaws(s) && |row| >= 1 && InRange(row, sparse) && |p| == sparse + d && d <= |hash|
    ensures value == DecodedBits(s, row, hash, p, sparse, d)
  {
    hide BitLaws, FieldLaws, Laws, BitLane, DecodedBits;
    RingOf(s);
    FirstEntry(s, row, p);
    value := p[row[0]];
    for j := 1 to |row|
      invariant value == SparseSum(s, row, p, j)
    {
      value := s.xor(value, p[row[j]]);
    }
    BitLaneEnds(s, row, hash, p, sparse, d);
    for i := 0 to d
      invariant value == BitLane(s, row, hash, p, sparse, d, i)
    {
      BitLaneSteps(s, row, hash, p, sparse, d, i);
      if hash[i] {
        value := s.xor(value, p[i + sparse]);
      }
    }
  }

  /** The dense part of thirty-two keys, one dense column at a time. */
  method BitLanes<V(!new)>(
    s: Space<bool, V>, rows: seq<seq<nat>>, dense: seq<Hash>, p: seq<V>, sparse: nat, d: nat, values: array<V>)
    requires BitLaws(s) && |rows| == |dense| == LANES <= values.Length && |p| == sparse + d
    requires forall k :: 0 <= k < LANES ==> InRange(rows[k], sparse) && d <= |dense[k]|
    requires forall k :: 0 <= k < LANES ==> values[k] == BitLane(s, rows[k], dense[k], p, sparse, d, 0)
    modifies values
    ensures forall k :: 0 <= k < LANES ==> values[k] == BitLane(s, rows[k], dense[k], p, sparse, d, d)
    ensures forall k :: LANES <= k < values.Length ==> values[k] == old(values[k])
  {
    hide BitLaws, BitLane;
    for i := 0 to d
      invariant forall q :: 0 <= q < LANES ==> values[q] == BitLane(s, rows[q], dense[q], p, sparse, d, i)
      invariant forall q :: LANES <= q < values.Length ==> values[q] == old(values[q])
    {
      for k := 0 to LANES
        invariant forall q :: 0 <= q < LANES ==>
          values[q] == BitLane(s, rows[q], dense[q], p, sparse, d, if q < k then i + 1 else i)
        invariant forall q :: LANES <= q < values.Length ==> values[q] == old(values[q])
      {
        BitLaneSteps(s, rows[k], dense[k], p, sparse, d, i);
        if dense[k][i] {
          values[k] := s.xor(values[k], p[sparse + i]);
        }
      }
    }
  }

  /** Decodes thirty-two keys. */
  method Decode32Bits<V(!new)>(
    s: Space<bool, V>, rows: seq<seq<nat>>, weight: nat, dense: seq<Hash>, p: seq<V>, sparse: nat, d: nat,
    values: array<V>)
    requires BitLaws(s) && |rows| == |dense| == LANES <= values.Length && weight >= 1 && |p| == sparse + d
    requires forall k :: 0 <= k < LANES ==> |rows[k]| == weight && InRange(rows[k], sparse) && d <= |dense[k]|
    modifies values
    ensures forall k :: 0 <= k < LANES ==> values[k] == DecodedBits(s, rows[k], dense[k], p, sparse, d)
    ensures forall k :: LANES <= k < values.Length ==> values[k] == old(values[k])
  {
    hide BitLaws, Laws, BitLane, DecodedBits;
    RingOf(s);
    forall k | 0 <= k < LANES
      ensures BitLane(s, rows[k], dense[k], p, sparse, d, 0) == SparseSum(s, rows[k], p, weight)
      ensures BitLane(s, rows[k], dense[k], p, sparse, d, d) == DecodedBits(s, rows[k], dense[k], p, sparse, d)
    {
      BitLaneEnds(s, rows[k], dense[k], p, sparse, d);
    }
    SparseLanes(s, rows, weight, p, values);
    BitLanes(s, rows, dense, p, sparse, d, values);
  }

  /** Decodes all keys, thirty-two at a time and the rest one by one. */
  method DecodeBits<V(!new)>(
    s: Space<bool, V>, rows: seq<seq<nat>>, weight: nat, dense: seq<Hash>, p: seq<V>, sparse: nat, d: nat, add: bool,
    values: array<V>)
    requires BitLaws(s) && |rows| == |dense| == values.Length && weight >= 1 && |p| == sparse + d
    requires forall k :: 0 <= k < |rows| ==> |rows[k]| == weight && InRange(rows[k], sparse) && d <= |dense[k]|
    modifies values
    ensures forall k :: 0 <= k < values.Length ==>
      values[k] == Slot(s, add, old(values[k]), DecodedBits(s, rows[k], dense[k], p, sparse, d))
    ensures add ==> forall k :: 0 <= k < values.Length ==>
      values[k] == s.xor(old(values[k]), DecodedBits(s, rows[k], dense[k], p, sparse, d))
    ensures !add ==> forall k :: 0 <= k < values.Length ==>
      values[k] == DecodedBits(s, rows[k], dense[k], p, sparse, d)
  {
    hide BitLaws, DecodedBits;
    var n := |rows|;
    var main := n / LANES * LANES;
    var v := new V[LANES](_ => s.vzero);
    var i := 0;
    while i < main
      invariant 0 <= i <= main && i % LANES == 0
      invariant forall k :: 0 <= k < i ==>
        values[k] == Slot(s, add, old(values[k]), DecodedBits(s, rows[k], dense[k], p, sparse, d))
      invariant forall k :: i <= k < n ==> values[k] == old(values[k])
    {
      Decode32Bits(s, rows[i..i + LANES], weight, dense[i..i + LANES], p, sparse, d, v);
      for j := 0 to LANES
        invariant forall k :: 0 <= k < i + j ==>
          values[k] == Slot(s, add, old(values[k]), DecodedBits(s, rows[k], dense[k], p, sparse, d))
        invariant forall k :: i + j <= k < n ==> values[k] == old(values[k])
        invariant forall k :: 0 <= k < LANES ==>
          v[k] == DecodedBits(s, rows[i..i + LANES][k], dense[i..i + LANES][k], p, sparse, d)
      {
        values[i + j] := if add then s.xor(values[i + j], v[j]) else v[j];
      }
      i := i + LANES;
    }
    while i < n
      invariant main <= i <= n
      invariant forall k :: 0 <= k < i ==>
        values[k] == Slot(s, add, old(values[k]), DecodedBits(s, rows[k], dense[k], p, sparse, d))
      invariant forall k :: i <= k < n ==> values[k] == old(values[k])
    {
      var value := Decode1Bits(s, rows[i], dense[i], p, sparse, d);
      values[i] := if add then s.xor(values[i], value) else value;
      i := i + 1;
    }
  }

  /** The round trip: set the input, encode without randomness, and decode every row of the input. */
  method SolveThenDecodeBits<V(!new)>(
    s: Space<bool, V>, param: PaxosParam, rows: seq<seq<nat>>, dense: seq<Hash>, width: nat, x: seq<V>,
    combinations: nat -> seq<seq<nat>>, invert: seq<seq<bool>> -> Option<seq<seq<bool>>>, p: array<V>, values: array<V>)
    returns (r: Status)
    requires BitLaws(s) && Inverts(s, invert) && |rows| == |dense| == |x| == values.Length && p != values
    requires GoodRows(rows, param.weight, param.sparseSize) && param.weight >= 1
    requires Hashed(dense, width, param.denseSize)
    requires param.weight >= 3 || param.sparseSize >= |rows| + 2
    requires forall c :: 0 <= c < param.sparseSize ==> |ColumnOf(rows, c, |rows|)| < INITIAL_SETS
    requires forall g: nat, c :: 0 <= c < |combinations(g)| ==> IsSelection(combinations(g)[c], g, param.denseSize)
    modifies p, values
    ensures r == TooFewColumns <==> param.Size() < |rows|
    ensures param.Size() >= |rows| && p.Length == param.Size() && param.sparseSize > 0 && Peelable(rows) ==>
      r == Encoded
    ensures r == Encoded ==> values[..] == x
  {
    hide Peelable, LeastFirst, TriangleOf, DenseBitsDrawn, DecodesUpTo;
    hide BitLaws, Laws, Inverts, ColumnOf, Linked, Trimmed, HoldsColumn, AllDecode, DrawCancels, RowValue, Triangulated,
      ClearsGaps, TakesShortcuts, OnlyDuplicates, NoSelection, DecodedBits, Distinct;
    if param.Size() < |rows| {
      return TooFewColumns;
    }
    var paxos := new Paxos<Hash>(|rows|, param);
    var ok := paxos.SetInput(rows, param.weight, dense);
    ghost var t, fcinv;
    r, t, fcinv := EncodeBinary(s, paxos, width, x, p, None, combinations, invert);
    if r == Encoded {
      DecodeBits(s, rows, param.weight, dense, p[..], param.sparseSize, param.denseSize, false, values);
      EncodedBits(s, SystemOfBits(paxos), dense, p[..], x, values[..]);
    }
  }

  lemma EncodedBits<V>(s: Space<bool, V>, sys: System<bool>, dense: seq<Hash>, p: seq<V>, x: seq<V>, values: seq<V>)
    requires sys.Valid() && |p| == sys.sparse + sys.denseSize && |x| == |values| == |sys.rows| == |dense|
    requires sys.coefs == BitCoefs(dense, sys.denseSize) && AllDecode(s, sys, p, x)
    requires forall k :: 0 <= k < |values| ==> sys.denseSize <= |dense[k]|
    requires forall k :: 0 <= k < |values| ==>
      values[k] == DecodedBits(s, sys.rows[k], dense[k], p, sys.sparse, sys.denseSize)
    ensures values == x
  {
    forall k | 0 <= k < |values|
      ensures values[k] == x[k]
    {
      assert sys.Value(s, p, k) == x[k];
    }
  }
}
