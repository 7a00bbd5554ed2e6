/** Decoding, one key or thirty-two keys at a time, and the round trip. */
module PaxosDecode {
  import opened Wrappers
  import opened Algebra
  import opened WeightSets
  import opened SparseMatrix
  import opened Peeling
  import opened LeastWeight
  import opened FCInverse
  import opened FreeDraws
  import opened Gf128
  import opened Okvs
  import opened Backfill
  import opened PaxosCore
  import opened PaxosGf128

  const LANES := 32

  ghost function Decoded<F, V>(s: Space<F, V>, row: seq<nat>, e: F, p: seq<V>, sparse: nat, d: nat): V
    requires InRange(row, sparse) && |p| == sparse + d
  {
    RowValue(s, row, Powers(s, e, d), p, sparse)
  }

  /** e times (the first value and e times (the second value and so on)). */
  ghost function Horner<F, V>(s: Space<F, V>, e: F, p2: seq<V>): V {
    if p2 == [] then s.vzero else s.scale(e, s.xor(p2[0], Horner(s, e, p2[1..])))
  }

  /** A key decodes to the sum of its sparse columns and of the dense columns weighted by e, e^2 and so on. */
  lemma DecodedIsHorner<F(!new), V(!new)>(s: Space<F, V>, row: seq<nat>, e: F, p: seq<V>, sparse: nat, d: nat)
    requires Laws(s) && Distinct(row) && InRange(row, sparse) && |p| == sparse + d
    ensures Decoded(s, row, e, p, sparse, d) ==
      s.xor(MaskSum(s, Entries(row), p, |p|), Horner(s, e, p[sparse..]))
  {
    hide Laws, MaskSum, Horner;
    SparseIsMask(s, row, p, |row|);
    assert row[..|row|] == row;
    DenseIsHorner(s, e, p[sparse..]);
  }

  lemma {:induction false} DenseIsHorner<F(!new), V(!new)>(s: Space<F, V>, e: F, p2: seq<V>)
    requires Laws(s)
    ensures Dot(s, Powers(s, e, |p2|), p2, |p2|) == Horner(s, e, p2)
  {
    hide Laws, Pow;
    if p2 != [] {
      var d, ks, rest := |p2|, Powers(s, e, |p2|), p2[1..];
      DotFirst(s, ks, p2, d);
      DenseIsHorner(s, e, rest);
      forall i | 0 <= i < d - 1
        ensures ks[1..][i] == s.times(e, Powers(s, e, d - 1)[i])
      {
        PowNext(s, e, i + 1);
        TimesLaws(s, Pow(s, e, i + 1), e, e);
      }
      DotTimes(s, e, Powers(s, e, d - 1), ks[1..], rest, d - 1);
      PowOne(s, e);
      ScaleXor(s, e, p2[0], Horner(s, e, rest));
    }
  }

  lemma {:induction false} DotFirst<F(!new), V(!new)>(s: Space<F, V>, ks: seq<F>, xs: seq<V>, n: nat)
    requires Laws(s) && 1 <= n <= |ks| && n <= |xs|
    ensures Dot(s, ks, xs, n) == s.xor(s.scale(ks[0], xs[0]), Dot(s, ks[1..], xs[1..], n - 1))
  {
    hide XorLaws;
    var first := s.scale(ks[0], xs[0]);
    if n == 1 {
      XorZero(s.vzero, s.xor, first);
      assert Dot(s, ks, xs, 1) == s.xor(Dot(s, ks, xs, 0), first);
    } else {
      DotFirst(s, ks, xs, n - 1);
      XorAssoc(s.vzero, s.xor, first, Dot(s, ks[1..], xs[1..], n - 2), s.scale(ks[n - 1], xs[n - 1]));
    }
  }

  lemma FirstEntry<F(!new), V(!new)>(s: Space<F, V>, row: seq<nat>, p: seq<V>)
    requires Laws(s) && |row| >= 1 && InRange(row, |p|)
    ensures p[row[0]] == SparseSum(s, row, p, 1)
  {
    hide XorLaws;
    XorZero(s.vzero, s.xor, p[row[0]]);
    assert SparseSum(s, row, p, 1) == s.xor(SparseSum(s, row, p, 0), p[row[0]]);
  }

  lemma FirstTerms<F(!new), V(!new)>(s: Space<F, V>, row: seq<nat>, e: F, p: seq<V>, sparse: nat, d: nat)
    requires Laws(s) && |row| >= 1 && InRange(row, sparse) && |p| == sparse + d && d >= 1
    ensures p[row[0]] == SparseSum(s, row, p, 1)
    ensures s.scale(e, p[sparse]) == Dot(s, Powers(s, e, d), p[sparse..], 1)
    ensures Pow(s, e, 1) == e
  {
    hide XorLaws;
    PowOne(s, e);
    FirstEntry(s, row, p);
    XorZero(s.vzero, s.xor, s.scale(e, p[sparse]));
    var ks, p2 := Powers(s, e, d), p[sparse..];
    assert Dot(s, ks, p2, 1) == s.xor(Dot(s, ks, p2, 0), s.scale(ks[0], p2[0]));
  }

  /** Decodes one key. */
  method Decode1<F(!new), V(!new)>(s: Space<F, V>, row: seq<nat>, e: F, p: seq<V>, sparse: nat, d: nat)
    returns (value: V)
    requires Laws(s) && |row| >= 1 && InRange(row, sparse) && |p| == sparse + d && d >= 1
    ensures value == Decoded(s, row, e, p, sparse, d)
  {
    hide XorLaws;
    FirstTerms(s, row, e, p, sparse, d);
    value := p[row[0]];
    for j := 1 to |row|
      invariant value == SparseSum(s, row, p, j)
    {
      value := s.xor(value, p[row[j]]);
    }
    ghost var a, ks, p2 := value, Powers(s, e, d), p[sparse..];
    var x := e;
    value := s.xor(value, s.scale(x, p[sparse]));
    for i := 1 to d
      invariant x == Pow(s, e, i) && value == s.xor(a, Dot(s, ks, p2, i))
    {
      x := s.times(x, e);
      XorAssoc(s.vzero, s.xor, a, Dot(s, ks, p2, i), s.scale(x, p[i + sparse]));
      value := s.xor(value, s.scale(x, p[i + sparse]));
    }
  }

  /** The sparse part of thirty-two keys, column by column across all of them. */
  method SparseLanes<F(!new), V(!new)>(
    s: Space<F, V>, rows: seq<seq<nat>>, weight: nat, p: seq<V>, values: array<V>)
    requires Laws(s) && |rows| == LANES <= values.Length && weight >= 1
    requires forall k :: 0 <= k < LANES ==> |rows[k]| == weight && InRange(rows[k], |p|)
    modifies values
    ensures forall k :: 0 <= k < LANES ==> values[k] == SparseSum(s, rows[k], p, weight)
    ensures forall k :: LANES <= k < values.Length ==> values[k] == old(values[k])
  {
    hide Laws;
    for k := 0 to LANES
      invariant forall q :: 0 <= q < k ==> values[q] == SparseSum(s, rows[q], p, 1)
      invariant forall q :: LANES <= q < values.Length ==> values[q] == old(values[q])
    {
      FirstEntry(s, rows[k], p);
      values[k] := p[rows[k][0]];
    }
    for j := 1 to weight
      invariant forall q :: 0 <= q < LANES ==> values[q] == SparseSum(s, rows[q], p, j)
      invariant forall q :: LANES <= q < values.Length ==> values[q] == old(values[q])
    {
      for k := 0 to LANES
        invariant forall q :: 0 <= q < LANES ==> values[q] == SparseSum(s, rows[q], p, if q < k then j + 1 else j)
        invariant forall q :: LANES <= q < values.Length ==> values[q] == old(values[q])
      {
        values[k] := s.xor(values[k], p[rows[k][j]]);
      }
    }
  }

  /** Decodes thirty-two keys. */
  method Decode32<F(!new), V(!new)>(
    s: Space<F, V>, rows: seq<seq<nat>>, weight: nat, dense: seq<F>, p: seq<V>, sparse: nat, d: nat, values: array<V>)
    requires Laws(s) && |rows| == |dense| == LANES <= values.Length && weight >= 1 && |p| == sparse + d && d >= 1
    requires forall k :: 0 <= k < LANES ==> |rows[k]| == weight && InRange(rows[k], sparse)
    modifies values
    ensures forall k :: 0 <= k < LANES ==> values[k] == Decoded(s, rows[k], dense[k], p, sparse, d)
    ensures forall k :: LANES <= k < values.Length ==> values[k] == old(values[k])
  {
    hide Laws;
    SparseLanes(s, rows, weight, p, values);
    forall q | 0 <= q < LANES
      ensures values[q] == LaneValue(s, rows[q], dense[q], p, sparse, d, 0)
    {
      LaneStep(s, rows[q], dense[q], p, sparse, d, 0);
    }
    DenseLanes(s, rows, weight, dense, p, sparse, d, values);
  }

  /** The value of a lane after i dense columns. */
  ghost function LaneValue<F, V>(s: Space<F, V>, row: seq<nat>, e: F, p: seq<V>, sparse: nat, d: nat, i: nat): V
    requires InRange(row, sparse) && |p| == sparse + d && i <= d
  {
    s.xor(SparseSum(s, row, p, |row|), Dot(s, Powers(s, e, d), p[sparse..], i))
  }

  lemma LaneStep<F(!new), V(!new)>(s: Space<F, V>, row: seq<nat>, e: F, p: seq<V>, sparse: nat, d: nat, i: nat)
    requires Laws(s) && InRange(row, sparse) && |p| == sparse + d && i < d
    ensures LaneValue(s, row, e, p, sparse, d, i + 1) ==
      s.xor(LaneValue(s, row, e, p, sparse, d, i), s.scale(Pow(s, e, i + 1), p[sparse + i]))
    ensures LaneValue(s, row, e, p, sparse, d, 0) == SparseSum(s, row, p, |row|)
  {
    hide XorLaws;
    XorZero(s.vzero, s.xor, SparseSum(s, row, p, |row|));
    XorAssoc(s.vzero, s.xor, SparseSum(s, row, p, |row|), Dot(s, Powers(s, e, d), p[sparse..], i),
             s.scale(Pow(s, e, i + 1), p[sparse + i]));
  }

  /** The dense part of the thirty-two keys; every lane keeps its own power. */
  method DenseLanes<F(!new), V(!new)>(
    s: Space<F, V>, rows: seq<seq<nat>>, weight: nat, dense: seq<F>, p: seq<V>, sparse: nat, d: nat, values: array<V>)
    requires Laws(s) && |rows| == |dense| == LANES <= values.Length && |p| == sparse + d && d >= 1
    requires forall k :: 0 <= k < LANES ==> |rows[k]| == weight && InRange(rows[k], sparse)
    requires forall k :: 0 <= k < LANES ==> values[k] == LaneValue(s, rows[k], dense[k], p, sparse, d, 0)
    modifies values
    ensures forall k :: 0 <= k < LANES ==> values[k] == Decoded(s, rows[k], dense[k], p, sparse, d)
    ensures forall k :: LANES <= k < values.Length ==> values[k] == old(values[k])
  {
    hide Laws, Decoded, LaneValue, SparseSum, Pow;
    var xx := dense;
    for k := 0 to LANES
      invariant forall q :: 0 <= q < LANES ==>
        values[q] == LaneValue(s, rows[q], dense[q], p, sparse, d, if q < k then 1 else 0)
      invariant forall q :: 0 <= q < k ==> xx[q] == Pow(s, dense[q], 1)
      invariant forall q :: LANES <= q < values.Length ==> values[q] == old(values[q])
    {
      LaneStep(s, rows[k], dense[k], p, sparse, d, 0);
      PowOne(s, dense[k]);
      values[k] := s.xor(values[k], s.scale(xx[k], p[sparse]));
    }
    for i := 1 to d
      invariant |xx| == LANES
      invariant forall q :: 0 <= q < LANES ==>
        xx[q] == Pow(s, dense[q], i) && values[q] == LaneValue(s, rows[q], dense[q], p, sparse, d, i)
      invariant forall q :: LANES <= q < values.Length ==> values[q] == old(values[q])
    {
      for k := 0 to LANES
        invariant |xx| == LANES
        invariant forall q :: 0 <= q < k ==>
          xx[q] == Pow(s, dense[q], i + 1) && values[q] == LaneValue(s, rows[q], dense[q], p, sparse, d, i + 1)
        invariant forall q :: k <= q < LANES ==>
          xx[q] == Pow(s, dense[q], i) && values[q] == LaneValue(s, rows[q], dense[q], p, sparse, d, i)
        invariant forall q :: LANES <= q < values.Length ==> values[q] == old(values[q])
      {
        PowNext(s, dense[k], i);
        LaneStep(s, rows[k], dense[k], p, sparse, d, i);
        xx := xx[k := s.times(xx[k], dense[k])];
        values[k] := s.xor(values[k], s.scale(xx[k], p[sparse + i]));
      }
    }
    forall k | 0 <= k < LANES
      ensures LaneValue(s, rows[k], dense[k], p, sparse, d, d) == Decoded(s, rows[k], dense[k], p, sparse, d)
    {
      LaneDone(s, rows[k], dense[k], p, sparse, d);
    }
  }

  lemma PowNext<F, V>(s: Space<F, V>, e: F, i: nat)
    ensures Pow(s, e, i + 1) == s.times(Pow(s, e, i), e)
  {
  }

  lemma LaneDone<F, V>(s: Space<F, V>, row: seq<nat>, e: F, p: seq<V>, sparse: nat, d: nat)
    requires InRange(row, sparse) && |p| == sparse + d
    ensures LaneValue(s, row, e, p, sparse, d, d) == Decoded(s, row, e, p, sparse, d)
  {
  }

  /** What decoding leaves in an output slot: the decoded value, added to the slot if asked to. */
  ghost function Slot<F, V>(s: Space<F, V>, add: bool, before: V, value: V): V {
    if add then s.xor(before, value) else value
  }

  /** Decodes all keys, thirty-two at a time and the rest one by one. */
  method Decode<F(!new), V(!new)>(
    s: Space<F, V>, rows: seq<seq<nat>>, weight: nat, dense: seq<F>, p: seq<V>, sparse: nat, d: nat, add: bool,
    values: array<V>)
    requires Laws(s) && |rows| == |dense| == values.Length && weight >= 1 && |p| == sparse + d && d >= 1
    requires forall k :: 0 <= k < |rows| ==> |rows[k]| == weight && InRange(rows[k], sparse)
    modifies values
    ensures forall k :: 0 <= k < values.Length ==>
      values[k] == Slot(s, add, old(values[k]), Decoded(s, rows[k], dense[k], p, sparse, d))
    ensures add ==> forall k :: 0 <= k < values.Length ==>
      values[k] == s.xor(old(values[k]), Decoded(s, rows[k], dense[k], p, sparse, d))
    ensures !add ==> forall k :: 0 <= k < values.Length ==> values[k] == Decoded(s, rows[k], dense[k], p, sparse, d)
  {
    hide Laws, Decoded;
    var n := |rows|;
    var main := n / LANES * LANES;
    var v := new V[LANES](_ => s.vzero);
    var i := 0;
    while i < main
      invariant 0 <= i <= main && i % LANES == 0
      invariant forall k :: 0 <= k < i ==>
        values[k] == Slot(s, add, old(values[k]), Decoded(s, rows[k], dense[k], p, sparse, d))
      invariant forall k :: i <= k < n ==> values[k] == old(values[k])
    {
      Decode32(s, rows[i..i + LANES], weight, dense[i..i + LANES], p, sparse, d, v);
      for j := 0 to LANES
        invariant forall k :: 0 <= k < i + j ==>
          values[k] == Slot(s, add, old(values[k]), Decoded(s, rows[k], dense[k], p, sparse, d))
        invariant forall k :: i + j <= k < n ==> values[k] == old(values[k])
        invariant forall k :: 0 <= k < LANES ==>
          v[k] == Decoded(s, rows[i..i + LANES][k], dense[i..i + LANES][k], p, sparse, d)
      {
        values[i + j] := if add then s.xor(values[i + j], v[j]) else v[j];
      }
      i := i + LANES;
    }
    while i < n
      invariant main <= i <= n
      invariant forall k :: 0 <= k < i ==>
        values[k] == Slot(s, add, old(values[k]), Decoded(s, rows[k], dense[k], p, sparse, d))
      invariant forall k :: i <= k < n ==> values[k] == old(values[k])
    {
      var value := Decode1(s, rows[i], dense[i], p, sparse, d);
      values[i] := if add then s.xor(values[i], value) else value;
      i := i + 1;
    }
  }

  /** The round trip: set the input, encode without randomness, and decode every row of the input. */
  method SolveThenDecode<F(==, !new), V(!new)>(
    s: Space<F, V>, param: PaxosParam, rows: seq<seq<nat>>, dense: seq<F>, x: seq<V>, p: array<V>, values: array<V>)
    returns (r: Status)
    requires FieldLaws(s) && |rows| == |dense| == |x| == values.Length && p != values
    requires GoodRows(rows, param.weight, param.sparseSize) && param.weight >= 1 && param.denseSize >= 1
    requires param.weight >= 3 || param.sparseSize >= |rows| + 2
    requires forall c :: 0 <= c < param.sparseSize ==> |ColumnOf(rows, c, |rows|)| < INITIAL_SETS
    modifies p, values
    ensures r == TooFewColumns <==> param.Size() < |rows|
    ensures param.Size() >= |rows| && p.Length == param.Size() && param.sparseSize > 0 && Peelable(rows) ==>
      r == Encoded
    ensures r == Encoded ==> values[..] == x
  {
    hide Peelable, LeastFirst, TriangleOf, DenseDrawn, DecodesUpTo;
    hide FieldLaws, Laws, ColumnOf, Linked, Trimmed, HoldsColumn, AllDecode, DrawCancels, RowValue, Triangulated,
      ClearsGaps, TakesShortcuts, OnlyDuplicates, NoInverse, Decoded, Distinct;
    FieldIsRing(s);
    if param.Size() < |rows| {
      return TooFewColumns;
    }
    var paxos := new Paxos<F>(|rows|, param);
    var ok := paxos.SetInput(rows, param.weight, dense);
    ghost var t, fcinv;
    r, t, fcinv := Encode(s, paxos, x, p, None);
    if r == Encoded {
      Decode(s, rows, param.weight, dense, p[..], param.sparseSize, param.denseSize, false, values);
      EncodedValues(s, SystemOf(s, paxos), dense, p[..], x, values[..]);
    }
  }

  lemma EncodedValues<F, V>(
    s: Space<F, V>, sys: System<F>, dense: seq<F>, p: seq<V>, x: seq<V>, values: seq<V>)
    requires sys.Valid() && |p| == sys.sparse + sys.denseSize && |x| == |values| == |sys.rows| == |dense|
    requires sys.coefs == AllPowers(s, dense, sys.denseSize) && AllDecode(s, sys, p, x)
    requires forall k :: 0 <= k < |values| ==>
      values[k] == Decoded(s, sys.rows[k], dense[k], p, sys.sparse, sys.denseSize)
    ensures values == x
  {
    forall k | 0 <= k < |values|
      ensures values[k] == x[k]
    {
      assert sys.Value(s, p, k) == x[k];
    }
  }
}
