/** From a run of the threads to decoded keys: every key decodes to its value, whatever the schedule. */
module BaxosRoundTrip {
  import opened Wrappers
  import opened Algebra
  import opened WeightSets
  import opened SparseMatrix
  import opened Peeling
  import opened LeastWeight
  import opened FCInverse
  import opened FreeDraws
  import opened Words
  import opened Gf128
  import opened Okvs
  import opened Backfill
  import opened PaxosCore
  import opened PaxosGf128
  import opened PaxosDecode
  import opened PaxosBinary
  import opened BaxosBins
  import opened BaxosBacking
  import Threads = BaxosSolve
  import BlockField
  import H = PaxosHash

  /** The row of every hash. */
  ghost function RowsFor(hashes: seq<Block>, weight: nat, sparse: nat): (rows: seq<seq<nat>>)
    requires weight <= sparse
    ensures |rows| == |hashes|
  {
    seq(|hashes|, j requires 0 <= j < |hashes| => H.RowOf(hashes[j], weight, sparse))
  }

  lemma RowsForGood(hashes: seq<Block>, weight: nat, sparse: nat)
    requires weight <= sparse
    ensures GoodRows(RowsFor(hashes, weight, sparse), weight, sparse)
  {
    hide H.RowOf;
    forall j | 0 <= j < |hashes|
      ensures var row := H.RowOf(hashes[j], weight, sparse); |row| == weight && Distinct(row) && InRange(row, sparse)
    {
      H.RowOfGood(hashes[j], weight, sparse);
    }
  }

  /** Builds the rows of a bin, thirty-two at a time and the rest one by one. */
  method BuildRows(hashes: seq<Block>, weight: nat, sparse: nat) returns (rows: seq<seq<nat>>)
    requires weight <= sparse < Pow2(H.WORD - 1)
    ensures rows == RowsFor(hashes, weight, sparse)
  {
    hide Pow2, H.RowOf, H.RowStart;
    var n := |hashes|;
    var main := n / LANES * LANES;
    rows := [];
    var i := 0;
    ghost var goal := RowsFor(hashes, weight, sparse);
    if weight == 3 {
      var lanes := new nat[H.RowStart(0, weight, LANES)];
      while i < main
        invariant 0 <= i <= main && i % LANES == 0 && |rows| == i && rows == goal[..i]
      {
        var next := RowsOf(hashes[i..i + LANES], weight, sparse, lanes);
        assert next == goal[i..i + LANES];
        rows := rows + next;
        i := i + LANES;
      }
    }
    while i < n
      invariant 0 <= i <= n && |rows| == i && rows == goal[..i]
    {
      var row := new nat[weight];
      H.BuildRow(hashes[i], weight, sparse, row, 0);
      assert row[..] == row[0..0 + weight];
      rows := rows + [row[..]];
      i := i + 1;
    }
  }

  /** Every hash of a bin decodes to its value. */
  ghost predicate BinDecodes<V>(s: Space<Block, V>, param: PaxosParam, hashes: seq<Block>, p: seq<V>, x: seq<V>) {
    && Usable(param) && |p| == param.Size() && |x| == |hashes|
    && forall j :: 0 <= j < |hashes| ==> HashValue(s, hashes[j], param, p) == x[j]
  }

  lemma PowersDecode<V(!new)>(
    s: Space<Block, V>, param: PaxosParam, hashes: seq<Block>, sys: System<Block>, p: seq<V>, x: seq<V>)
    requires Usable(param) && param.dt == GF128 && |p| == param.Size() && |x| == |hashes|
    requires sys == System(RowsFor(hashes, param.weight, param.sparseSize), AllPowers(s, hashes, param.denseSize),
                           param.sparseSize, param.denseSize) && sys.Valid()
    ensures AllDecode(s, sys, p, x) <==> BinDecodes(s, param, hashes, p, x)
    ensures forall j :: 0 <= j < |hashes| ==> sys.Value(s, p, j) == HashValue(s, hashes[j], param, p)
  {
    hide H.RowOf, RowValue;
    forall j | 0 <= j < |hashes|
      ensures sys.Value(s, p, j) == HashValue(s, hashes[j], param, p)
    {
    }
  }

  lemma BitsDecode<V(!new)>(
    s: Space<Block, V>, param: PaxosParam, hashes: seq<Block>, sys: System<bool>, p: seq<V>, x: seq<V>)
    requires Usable(param) && param.dt == Binary && |p| == param.Size() && |x| == |hashes|
    requires sys == System(RowsFor(hashes, param.weight, param.sparseSize), BitCoefs(hashes, param.denseSize),
                           param.sparseSize, param.denseSize) && sys.Valid()
    ensures AllDecode(Bits(s), sys, p, x) <==> BinDecodes(s, param, hashes, p, x)
    ensures forall j :: 0 <= j < |hashes| ==> sys.Value(Bits(s), p, j) == HashValue(s, hashes[j], param, p)
  {
    hide H.RowOf, RowValue;
    forall j | 0 <= j < |hashes|
      ensures sys.Value(Bits(s), p, j) == HashValue(s, hashes[j], param, p)
    {
    }
  }

  lemma {:induction false} SameMaskSum<F, G, V>(s: Space<F, V>, t: Space<G, V>, mask: set<nat>, p: seq<V>, n: nat)
    requires s.vzero == t.vzero && s.xor == t.xor && n <= |p|
    ensures MaskSum(s, mask, p, n) == MaskSum(t, mask, p, n)
  {
    if n > 0 {
      SameMaskSum(s, t, mask, p, n - 1);
    }
  }

  /** Whether a draw cancels does not depend on the coefficients. */
  lemma SameCancelling<F, G, V>(
    s: Space<F, V>, u: Space<G, V>, rows: seq<seq<nat>>, t: Triangle, fcinv: seq<seq<nat>>, values: seq<V>)
    requires s.vzero == u.vzero && s.xor == u.xor
    ensures DrawCancels(s, rows, t, fcinv, values) <==> DrawCancels(u, rows, t, fcinv, values)
  {
    hide MaskSum, Residual;
    if |fcinv| == |t.gapRows| {
      forall i | 0 <= i < |t.gapRows|
        ensures RowCancels(s, rows, t.gapRows[i].0, fcinv[i], values) <==>
          RowCancels(u, rows, t.gapRows[i].0, fcinv[i], values)
      {
        if t.gapRows[i].0 < |rows| && InRange(fcinv[i], |rows|) {
          SameMaskSum(s, u, Residual(rows, t.gapRows[i].0, fcinv[i]), values, |values|);
        }
      }
    }
  }

  /** How bits are solved for: the choices of gap columns to try, and the inversion of bit matrices. */
  datatype Search = Search(combinations: nat -> seq<seq<nat>>, invert: seq<seq<bool>> -> Option<seq<seq<bool>>>) {
    ghost predicate Fits<V(!new)>(s: Space<bool, V>, d: nat) {
      && Inverts(s, invert)
      && forall g: nat, c :: 0 <= c < |combinations(g)| ==> IsSelection(combinations(g)[c], g, d)
    }
  }

  /** A bin can be encoded: room for the peeling, and columns that are not too heavy. */
  ghost predicate Encodable(param: PaxosParam, hashes: seq<Block>) {
    && param.weight <= param.sparseSize
    && (param.weight >= 3 || param.sparseSize >= |hashes| + 2)
    && forall c :: 0 <= c < param.sparseSize ==>
      |ColumnOf(RowsFor(hashes, param.weight, param.sparseSize), c, |hashes|)| < INITIAL_SETS
  }

  /** The trace of an encoding: a triangulation of the rows of the bin by columns of least weight, and lists that clear
      its gap rows. */
  ghost predicate TraceOf(param: PaxosParam, hashes: seq<Block>, t: Triangle, fcinv: seq<seq<nat>>)
    requires param.weight <= param.sparseSize
  {
    var rows := RowsFor(hashes, param.weight, param.sparseSize);
    && Triangulated(rows, hashes, param.sparseSize, t)
    && LeastFirst(rows, param.sparseSize, t.mainCols) && t == TriangleOf(rows, t.mainCols)
    && ClearsGaps(rows, t.mainRows, t.mainCols, t.gapRows, fcinv) && TakesShortcuts(rows, t, fcinv)
  }

  /** The draw of a bin cancels on what remains of its gap rows; without a draw there is nothing to cancel. */
  ghost predicate BinCancels<V>(
    s: Space<Block, V>, param: PaxosParam, hashes: seq<Block>, t: Triangle, fcinv: seq<seq<nat>>,
    rand: Option<Randomness<Block, V>>)
    requires param.weight <= param.sparseSize
  {
    rand.None? || DrawCancels(s, RowsFor(hashes, param.weight, param.sparseSize), t, fcinv, rand.value.sparse)
  }

  /** The hashes of the main rows decode to their values, whatever is drawn. */
  ghost predicate MainsDecode<V>(
    s: Space<Block, V>, param: PaxosParam, hashes: seq<Block>, t: Triangle, p: seq<V>, x: seq<V>)
  {
    && Usable(param) && |p| == param.Size() && |x| == |hashes|
    && forall k :: 0 <= k < |t.mainRows| ==> MainDecodes(s, param, hashes, t.mainRows[k], p, x)
  }

  ghost predicate MainDecodes<V>(
    s: Space<Block, V>, param: PaxosParam, hashes: seq<Block>, i: nat, p: seq<V>, x: seq<V>)
    requires Usable(param) && |p| == param.Size() && |x| == |hashes|
  {
    i < |hashes| && HashValue(s, hashes[i], param, p) == x[i]
  }

  /** The free sparse columns hold the drawn values, or zeroes; so do the dense columns as far as the gaps leave them
      free. */
  ghost predicate BinDrawn<V>(
    s: Space<Block, V>, param: PaxosParam, search: Search, hashes: seq<Block>, t: Triangle, fcinv: seq<seq<nat>>,
    rand: Option<Randomness<Block, V>>, p: seq<V>)
  {
    && |p| == param.Size() && (rand.Some? ==> rand.value.Fits(param.sparseSize, param.denseSize))
    && (forall c :: 0 <= c < param.sparseSize && c !in t.mainCols ==>
      p[c] == if rand.Some? then rand.value.sparse[c] else s.vzero)
    && match param.dt
      case GF128 => DenseDrawn(s, |t.gapRows|, param.denseSize, rand, p[param.sparseSize..])
      case Binary =>
        DenseBitsDrawn(Bits(s), hashes, t.gapRows, fcinv, param.denseSize, search.combinations(|t.gapRows|),
          search.invert, if rand.Some? then Some(rand.value.dense) else None, p[param.sparseSize..])
  }

  /** There are enough columns for the hashes, and in every set of their rows some column is used by one row alone. */
  ghost predicate HashesPeel(param: PaxosParam, hashes: seq<Block>)
    requires param.weight <= param.sparseSize
  {
    |hashes| <= param.Size() && Peelable(RowsFor(hashes, param.weight, param.sparseSize))
  }

  /** Solves one bin in either dense mode: builds its rows from the merged hashes and encodes the merged values. */
  method EncodeBin<V(!new)>(
    s: Space<Block, V>, param: PaxosParam, hashes: seq<Block>, x: seq<V>, rand: Option<Randomness<Block, V>>,
    search: Search, p: array<V>) returns (r: Status, ghost t: Triangle, ghost fcinv: seq<seq<nat>>)
    requires FieldLaws(s) && Decodable(param) && |x| == |hashes| && Encodable(param, hashes)
    requires param.dt == Binary ==> search.Fits(Bits(s), param.denseSize)
    requires rand.Some? ==> rand.value.Fits(param.sparseSize, param.denseSize)
    modifies p
    ensures r == TooFewColumns <==> param.Size() < |hashes|
    ensures r == WrongSize <==> param.Size() >= |hashes| && p.Length != param.Size()
    ensures r == Encoded ==> TraceOf(param, hashes, t, fcinv)
    ensures r == Encoded ==> (BinDecodes(s, param, hashes, p[..], x) <==> BinCancels(s, param, hashes, t, fcinv, rand))
    ensures r == Encoded ==> MainsDecode(s, param, hashes, t, p[..], x)
    ensures r == Encoded ==> BinDrawn(s, param, search, hashes, t, fcinv, rand, p[..])
    ensures p.Length == param.Size() && HashesPeel(param, hashes) ==> r == Encoded
  {
    hide Peelable, LeastFirst, TriangleOf, DenseDrawn, DenseBitsDrawn, HashValue, RowValue;
    hide FieldLaws, Laws, Pow2, H.RowOf, ColumnOf, Linked, Trimmed, HoldsColumn, AllDecode, DrawCancels, Inverts,
      Triangulated, ClearsGaps, TakesShortcuts, BinDecodes, BitLaws, OnlyDuplicates, NoInverse, NoSelection;
    if param.Size() < |hashes| {
      return TooFewColumns, Triangle([], [], []), [];
    }
    var rows := BuildRows(hashes, param.weight, param.sparseSize);
    RowsForGood(hashes, param.weight, param.sparseSize);
    if param.dt == GF128 {
      var paxos := new Paxos<Block>(|hashes|, param);
      var ok := paxos.SetInput(rows, param.weight, hashes);
      r, t, fcinv := Encode(s, paxos, x, p, rand);
      if r == Encoded {
        SystemValid(s, paxos);
        PowersDecode(s, param, hashes, SystemOf(s, paxos), p[..], x);
        MainRowsDecode(s, s, param, hashes, SystemOf(s, paxos), t, fcinv, p[..], x);
      }
    } else {
      FieldIsRing(s);
      BitsLawful(s);
      r, t, fcinv := EncodeBits(s, param, hashes, rows, x, rand, search, p);
    }
  }

  lemma MainRowsDecode<F, V(!new)>(
    s: Space<Block, V>, u: Space<F, V>, param: PaxosParam, hashes: seq<Block>, sys: System<F>, t: Triangle,
    fcinv: seq<seq<nat>>, p: seq<V>, x: seq<V>)
    requires Usable(param) && |p| == param.Size() && |x| == |hashes| == |sys.rows| && sys.Valid()
    requires DecodesUpTo(u, sys, t, fcinv, p, x)
    requires forall j :: 0 <= j < |hashes| ==> sys.Value(u, p, j) == HashValue(s, hashes[j], param, p)
    ensures MainsDecode(s, param, hashes, t, p, x)
  {
    hide HashValue, GapDecodes, System.Value;
    forall k | 0 <= k < |t.mainRows|
      ensures MainDecodes(s, param, hashes, t.mainRows[k], p, x)
    {
      assert PaxosGf128.MainDecodes(u, sys, t.mainRows[k], p, x);
    }
  }

  /** A block is a hash of 128 bits. */
  lemma BlocksAreHashes(rows: seq<seq<nat>>, hashes: seq<Block>, size: nat, t: Triangle)
    requires Triangulated<Hash>(rows, hashes, size, t)
    ensures Triangulated<Block>(rows, hashes, size, t)
  {
    hide Triangular, SplitsRows, Below, Distinct;
    forall i | 0 <= i < |t.gapRows|
      ensures HasMainRow<Block>(rows, hashes, t.mainRows, t.mainCols, t.gapRows[i])
    {
      assert HasMainRow<Hash>(rows, hashes, t.mainRows, t.mainCols, t.gapRows[i]);
      var k: nat :| SparseMatrix.GapRow<Hash>(rows, hashes, t.mainRows, t.mainCols, t.gapRows[i], k);
      assert SparseMatrix.GapRow<Block>(rows, hashes, t.mainRows, t.mainCols, t.gapRows[i], k);
    }
  }

  method EncodeBits<V(!new)>(
    s: Space<Block, V>, param: PaxosParam, hashes: seq<Block>, rows: seq<seq<nat>>, x: seq<V>,
    rand: Option<Randomness<Block, V>>, search: Search, p: array<V>)
    returns (r: Status, ghost t: Triangle, ghost fcinv: seq<seq<nat>>)
    requires BitLaws(Bits(s)) && Decodable(param) && param.dt == Binary && |x| == |hashes| && Encodable(param, hashes)
    requires rows == RowsFor(hashes, param.weight, param.sparseSize) && GoodRows(rows, param.weight, param.sparseSize)
    requires search.Fits(Bits(s), param.denseSize)
    requires rand.Some? ==> rand.value.Fits(param.sparseSize, param.denseSize)
    modifies p
    ensures r != TooFewColumns && (r == WrongSize <==> p.Length != param.Size())
    ensures r == Encoded ==> TraceOf(param, hashes, t, fcinv)
    ensures r == Encoded ==> (BinDecodes(s, param, hashes, p[..], x) <==> BinCancels(s, param, hashes, t, fcinv, rand))
    ensures r == Encoded ==> MainsDecode(s, param, hashes, t, p[..], x)
    ensures r == Encoded ==> BinDrawn(s, param, search, hashes, t, fcinv, rand, p[..])
    ensures p.Length == param.Size() && HashesPeel(param, hashes) ==> r == Encoded
  {
    hide Peelable, LeastFirst, TriangleOf, DenseBitsDrawn, HashValue, RowValue;
    hide Pow2, H.RowOf, ColumnOf, Linked, Trimmed, HoldsColumn, AllDecode, DrawCancels, Inverts, GoodRows,
      Triangulated, ClearsGaps, TakesShortcuts, BinDecodes, BitLaws, OnlyDuplicates, NoInverse, NoSelection;
    var paxos := new Paxos<Hash>(|hashes|, param);
    var ok := paxos.SetInput(rows, param.weight, hashes);
    var draws := if rand.Some? then Some(Draws(rand.value.sparse, rand.value.dense)) else None;
    r, t, fcinv := EncodeBinary(Bits(s), paxos, BlockField.BITS, x, p, draws, search.combinations, search.invert);
    if r == Encoded {
      BlocksAreHashes(rows, hashes, param.sparseSize, t);
      BitsValid(paxos, BlockField.BITS);
      BitsDecode(s, param, hashes, SystemOfBits(paxos), p[..], x);
      MainRowsDecode(s, Bits(s), param, hashes, SystemOfBits(paxos), t, fcinv, p[..], x);
      if rand.Some? {
        SameCancelling(s, Bits(s), rows, t, fcinv, rand.value.sparse);
      }
    }
  }

  // All bins together.

  /** The bins of the hashed keys. */
  function BinsOfKeys(keys: seq<Block>, numBins: nat): (bins: seq<nat>)
    requires numBins > 0
    ensures |bins| == |keys| && forall i :: 0 <= i < |bins| ==> bins[i] == BinOf(keys[i], numBins)
  {
    seq(|keys|, i requires 0 <= i < |keys| => BinOf(keys[i], numBins))
  }

  /** The threads and bins of a run are those of the layout and the keys, and no thread's room is exceeded. */
  ghost predicate Sorted(l: Layout, c: Threads.Config, keys: seq<Block>) {
    && l.Valid() && c.numBins == l.numBins && c.numThreads >= 1 && c.bins == BinsOfKeys(keys, l.numBins)
    && Threads.NoOverflow(c)
  }

  /** The items of bin b among all keys. */
  ghost function BinItems(c: Threads.Config, b: nat): (items: seq<nat>)
    ensures InRange(items, |c.bins|)
  {
    ItemsInRange(c.bins, b, 0, |c.bins|);
    Threads.Items(c.bins, b, 0, |c.bins|)
  }

  /** The keys of bin b. */
  ghost function BinKeys(c: Threads.Config, keys: seq<Block>, b: nat): (r: seq<Block>)
    requires |keys| == |c.bins|
  {
    Pick(keys, BinItems(c, b))
  }

  /** The part of bin b is an encoding of its items. */
  ghost predicate BinEncoded<V>(
    s: Space<Block, V>, l: Layout, c: Threads.Config, keys: seq<Block>, x: seq<V>, pp: seq<V>, b: nat)
    requires |x| == |keys| == |c.bins|
  {
    && (b + 1) * l.PartSize() <= |pp|
    && BinDecodes(s, l.param, BinKeys(c, keys, b), BinPart(pp, b, l.PartSize()), Pick(x, BinItems(c, b)))
  }

  lemma EncodedItems<V(!new)>(
    s: Space<Block, V>, l: Layout, c: Threads.Config, keys: seq<Block>, x: seq<V>, pp: seq<V>, b: nat)
    requires Sorted(l, c, keys) && |x| == |keys| && |pp| == l.Size() && b < l.numBins
    ensures BinEncoded(s, l, c, keys, x, pp, b) <==>
      forall i :: 0 <= i < |keys| && BinOf(keys[i], l.numBins) == b ==> KeyValue(s, l, keys[i], pp) == x[i]
  {
    hide Pow2, BinOf, HashValue, BinPart, Threads.NoOverflow, Threads.Items;
    PartInRange(l.numBins, b, l.PartSize());
    Threads.ItemsExact(c.bins, b, 0, |c.bins|);
    var items, part := BinItems(c, b), BinPart(pp, b, l.PartSize());
    forall i | 0 <= i < |keys| && BinOf(keys[i], l.numBins) == b
      ensures i in items && KeyValue(s, l, keys[i], pp) == HashValue(s, keys[i], l.param, part)
    {
    }
    forall j | 0 <= j < |items|
      ensures BinOf(keys[items[j]], l.numBins) == b
      ensures HashValue(s, BinKeys(c, keys, b)[j], l.param, part) == KeyValue(s, l, keys[items[j]], pp)
    {
      assert items[j] in items;
    }
  }

  /** Every key decodes to its value. */
  ghost predicate KeysDecode<V>(s: Space<Block, V>, l: Layout, keys: seq<Block>, x: seq<V>, pp: seq<V>)
    requires l.Fits() && |x| == |keys| && |pp| == l.Size()
  {
    forall i :: 0 <= i < |keys| ==> KeyValue(s, l, keys[i], pp) == x[i]
  }

  /** In either dense mode: all keys decode to their values if and only if the part of every bin encodes its items. */
  lemma EveryKeyDecodes<V(!new)>(
    s: Space<Block, V>, l: Layout, c: Threads.Config, keys: seq<Block>, x: seq<V>, pp: seq<V>)
    requires Sorted(l, c, keys) && |x| == |keys| && |pp| == l.Size()
    ensures (forall b :: 0 <= b < l.numBins ==> BinEncoded(s, l, c, keys, x, pp, b)) <==> KeysDecode(s, l, keys, x, pp)
  {
    hide Pow2, BinOf, Threads.NoOverflow, Threads.Items, KeyValue, BinEncoded, Layout.Valid;
    LayoutFacts(l);
    forall b | 0 <= b < l.numBins
      ensures BinEncoded(s, l, c, keys, x, pp, b) <==>
        forall i :: 0 <= i < |keys| && BinOf(keys[i], l.numBins) == b ==> KeyValue(s, l, keys[i], pp) == x[i]
    {
      EncodedItems(s, l, c, keys, x, pp, b);
    }
    if forall b :: 0 <= b < l.numBins ==> BinEncoded(s, l, c, keys, x, pp, b) {
      forall i | 0 <= i < |keys|
        ensures KeyValue(s, l, keys[i], pp) == x[i]
      {
        assert BinEncoded(s, l, c, keys, x, pp, BinOf(keys[i], l.numBins));
      }
    }
  }

  /** Writes the part of bin b; the parts of the other bins stay. */
  method WritePart<V(!new)>(l: Layout, b: nat, part: array<V>, pp: array<V>)
    requires b < l.numBins && pp.Length == l.Size() && part.Length == l.PartSize() && part != pp
    requires (b + 1) * l.PartSize() <= pp.Length
    modifies pp
    ensures BinPart(pp[..], b, l.PartSize()) == part[..]
    ensures forall d :: 0 <= d < l.numBins && d != b && (d + 1) * l.PartSize() <= pp.Length ==>
      BinPart(pp[..], d, l.PartSize()) == BinPart(old(pp[..]), d, l.PartSize())
  {
    Next(b, l.PartSize());
    WriteAt(part, pp, b * l.PartSize());
    OtherParts(old(pp[..]), pp[..], b, l.PartSize());
  }

  /** Writes the entries of part from start on. */
  method WriteAt<V>(part: array<V>, pp: array<V>, start: nat)
    requires start + part.Length <= pp.Length && part != pp
    modifies pp
    ensures pp[..][start..start + part.Length] == part[..]
    ensures forall j :: 0 <= j < pp.Length && !(start <= j < start + part.Length) ==> pp[..][j] == old(pp[..])[j]
  {
    for k := 0 to part.Length
      invariant forall j :: 0 <= j < k ==> pp[start + j] == part[j]
      invariant forall j :: 0 <= j < pp.Length && !(start <= j < start + k) ==> pp[j] == old(pp[j])
    {
      pp[start + k] := part[k];
    }
  }

  lemma OtherParts<V>(before: seq<V>, after: seq<V>, b: nat, size: nat)
    requires |before| == |after|
    requires forall j :: 0 <= j < |before| && !(b * size <= j < b * size + size) ==> after[j] == before[j]
    ensures forall d: nat :: d != b && (d + 1) * size <= |before| ==>
      BinPart(after, d, size) == BinPart(before, d, size)
  {
    forall d: nat | d != b && (d + 1) * size <= |before|
      ensures BinPart(after, d, size) == BinPart(before, d, size)
    {
      OtherPart(before, after, b, d, size);
    }
  }

  lemma OtherPart<V>(before: seq<V>, after: seq<V>, b: nat, d: nat, size: nat)
    requires |before| == |after| && d != b && (d + 1) * size <= |before|
    requires forall j :: 0 <= j < |before| && !(b * size <= j < b * size + size) ==> after[j] == before[j]
    ensures BinPart(after, d, size) == BinPart(before, d, size)
  {
    PartsApart(d, b, size);
    Next(d, size);
    Next(b, size);
  }

  lemma PartsApart(d: nat, b: nat, size: nat)
    requires d != b
    ensures (d + 1) * size <= b * size || (b + 1) * size <= d * size
  {
    if d < b {
      MulLe(d + 1, b, size);
    } else {
      MulLe(b + 1, d, size);
    }
  }

  /** The traces of the encodings of all bins. */
  datatype Trace = Trace(t: Triangle, fcinv: seq<seq<nat>>)

  /**
   * The outcome of bin b: its main rows decode, all its items do exactly when its draw cancels on what remains of its
   * gap rows, and what the rows do not determine is drawn.
   */
  ghost predicate BinDone<V>(
    s: Space<Block, V>, l: Layout, c: Threads.Config, search: Search, keys: seq<Block>, x: seq<V>, pp: seq<V>, b: nat,
    trace: Trace, rand: Option<Randomness<Block, V>>)
    requires |x| == |keys| == |c.bins| && l.param.weight <= l.param.sparseSize
  {
    && (b + 1) * l.PartSize() <= |pp|
    && var hashes, part := BinKeys(c, keys, b), BinPart(pp, b, l.PartSize());
      && TraceOf(l.param, hashes, trace.t, trace.fcinv)
      && MainsDecode(s, l.param, hashes, trace.t, part, Pick(x, BinItems(c, b)))
      && BinDrawn(s, l.param, search, hashes, trace.t, trace.fcinv, rand, part)
      && (BinEncoded(s, l, c, keys, x, pp, b) <==> BinCancels(s, l.param, hashes, trace.t, trace.fcinv, rand))
  }

  /** What is drawn for bin b. */
  function DrawOf<V>(rand: Option<seq<Randomness<Block, V>>>, b: nat): Option<Randomness<Block, V>>
    requires rand.Some? ==> b < |rand.value|
  {
    if rand.Some? then Some(rand.value[b]) else None
  }

  lemma ParamFits(l: Layout)
    requires l.Valid()
    ensures l.param.weight <= l.param.sparseSize && l.numBins > 0
  {}

  /** There is a trace for each bin, and a draw for each bin if there are draws. */
  ghost predicate ForEachBin<V>(l: Layout, traces: seq<Trace>, rand: Option<seq<Randomness<Block, V>>>) {
    |traces| == l.numBins && (rand.Some? ==> |rand.value| == l.numBins)
  }

  /** Every bin is done. */
  ghost predicate BinsDone<V>(
    s: Space<Block, V>, l: Layout, c: Threads.Config, search: Search, keys: seq<Block>, x: seq<V>, pp: seq<V>,
    traces: seq<Trace>, rand: Option<seq<Randomness<Block, V>>>)
    requires l.Fits() && |x| == |keys| == |c.bins|
  {
    ForEachBin(l, traces, rand) && forall b :: 0 <= b < l.numBins ==>
      BinDone(s, l, c, search, keys, x, pp, b, traces[b], DrawOf(rand, b))
  }

  /** The traces are those of encodings of the bins. */
  ghost predicate Traced(l: Layout, c: Threads.Config, keys: seq<Block>, traces: seq<Trace>)
    requires l.Fits() && |keys| == |c.bins|
  {
    |traces| == l.numBins && forall b :: 0 <= b < l.numBins ==>
      TraceOf(l.param, BinKeys(c, keys, b), traces[b].t, traces[b].fcinv)
  }

  /** What is drawn for bin b sums to zero on what remains of each of its gap rows. */
  ghost predicate DrawCancelsIn<V>(
    s: Space<Block, V>, l: Layout, c: Threads.Config, keys: seq<Block>, traces: seq<Trace>,
    rand: Option<seq<Randomness<Block, V>>>, b: nat)
    requires l.Fits() && |keys| == |c.bins| && ForEachBin(l, traces, rand) && b < l.numBins
  {
    rand.None? || DrawCancels(s, RowsFor(BinKeys(c, keys, b), l.param.weight, l.param.sparseSize), traces[b].t,
      traces[b].fcinv, rand.value[b].sparse)
  }

  /** In every bin the draw cancels on what remains of the gap rows. */
  ghost predicate DrawsCancel<V>(
    s: Space<Block, V>, l: Layout, c: Threads.Config, keys: seq<Block>, traces: seq<Trace>,
    rand: Option<seq<Randomness<Block, V>>>)
    requires l.Fits() && |keys| == |c.bins|
  {
    ForEachBin(l, traces, rand) && forall b :: 0 <= b < l.numBins ==> DrawCancelsIn(s, l, c, keys, traces, rand, b)
  }

  /** Bin by bin, the keys get their values exactly when the draw of that bin cancels; those of main rows always do. */
  ghost predicate BinByBin<V>(
    s: Space<Block, V>, l: Layout, c: Threads.Config, keys: seq<Block>, x: seq<V>, traces: seq<Trace>,
    rand: Option<seq<Randomness<Block, V>>>, values: seq<V>)
    requires l.Fits() && |x| == |keys| == |c.bins| == |values|
  {
    && ForEachBin(l, traces, rand)
    && (forall b :: 0 <= b < l.numBins ==> (DrawCancelsIn(s, l, c, keys, traces, rand, b) <==>
      forall i :: 0 <= i < |keys| && BinOf(keys[i], l.numBins) == b ==> values[i] == x[i]))
    && forall b, k :: 0 <= b < l.numBins && 0 <= k < |traces[b].t.mainRows| ==>
      GivenValue(BinItems(c, b), traces[b].t.mainRows[k], values, x)
  }

  /** The j-th item of a bin has its value. */
  ghost predicate GivenValue<V>(items: seq<nat>, j: nat, values: seq<V>, x: seq<V>) {
    j < |items| && items[j] < |values| == |x| && values[items[j]] == x[items[j]]
  }

  /** The free columns of every bin hold what was drawn for that bin, or zeroes. */
  ghost predicate FreeColumnsDrawn<V>(
    zero: V, l: Layout, pp: seq<V>, traces: seq<Trace>, rand: Option<seq<Randomness<Block, V>>>)
  {
    && ForEachBin(l, traces, rand)
    && (forall b, q ::
      0 <= b < l.numBins && 0 <= q < l.param.sparseSize && q !in traces[b].t.mainCols ==>
        && b * l.param.Size() + q < |pp| && (rand.Some? ==> q < |rand.value[b].sparse|)
        && pp[b * l.param.Size() + q] == if rand.Some? then rand.value[b].sparse[q] else zero)
  }

  /** The dense columns of every bin hold what was drawn for it as far as its gaps leave them free. */
  ghost predicate BinsDrawn<V>(
    s: Space<Block, V>, l: Layout, c: Threads.Config, search: Search, keys: seq<Block>, pp: seq<V>,
    traces: seq<Trace>, rand: Option<seq<Randomness<Block, V>>>)
    requires l.Fits() && |keys| == |c.bins| && |pp| == l.Size()
  {
    && ForEachBin(l, traces, rand) && FreeColumnsDrawn(s.vzero, l, pp, traces, rand)
    && forall b :: 0 <= b < l.numBins ==>
      BinDrawn(s, l.param, search, BinKeys(c, keys, b), traces[b].t, traces[b].fcinv,
        if rand.Some? then Some(rand.value[b]) else None, PartOf(l, pp, b))
  }

  /** In every bin, every set of rows has a column that one row alone uses, and there are enough columns. */
  ghost predicate BinsPeel(l: Layout, c: Threads.Config, keys: seq<Block>)
    requires l.Fits() && |keys| == |c.bins|
  {
    forall b :: 0 <= b < l.numBins ==> HashesPeel(l.param, BinKeys(c, keys, b))
  }

  /** Decoding into a fresh output gives every key what it decodes to. */
  lemma DecodedKeys<V>(s: Space<Block, V>, l: Layout, keys: seq<Block>, pp: seq<V>, before: seq<V>, values: seq<V>)
    requires l.Fits() && |values| == |before| == |keys| && |pp| == l.Size()
    requires forall k :: 0 <= k < |keys| ==> values[k] == Slot(s, false, before[k], KeyValue(s, l, keys[k], pp))
    ensures KeysDecode(s, l, keys, values, pp)
  {
    hide KeyValue;
  }

  /** In every bin, the draws are in the output. */
  lemma AllBinsDrawn<V(!new)>(
    s: Space<Block, V>, l: Layout, c: Threads.Config, search: Search, keys: seq<Block>, x: seq<V>, pp: seq<V>,
    traces: seq<Trace>, rand: Option<seq<Randomness<Block, V>>>)
    requires l.Fits() && |x| == |keys| == |c.bins| && |pp| == l.Size()
    requires BinsDone(s, l, c, search, keys, x, pp, traces, rand)
    ensures BinsDrawn(s, l, c, search, keys, pp, traces, rand)
  {
    hide BinDone, BinKeys, BinDrawn, PartOf, Layout.Size;
    forall b | 0 <= b < l.numBins
      ensures BinDrawn(s, l.param, search, BinKeys(c, keys, b), traces[b].t, traces[b].fcinv, DrawOf(rand, b),
        PartOf(l, pp, b))
    {
      OneBinDrawn(s, l, c, search, keys, x, pp, b, traces[b], DrawOf(rand, b));
    }
    forall b, q | 0 <= b < l.numBins && 0 <= q < l.param.sparseSize && q !in traces[b].t.mainCols
      ensures b * l.param.Size() + q < |pp| && (rand.Some? ==> q < |rand.value[b].sparse|)
      ensures pp[b * l.param.Size() + q] == if rand.Some? then rand.value[b].sparse[q] else s.vzero
    {
      PartEntry(l, pp, b, q);
      DrawnEntry(s, l.param, search, BinKeys(c, keys, b), traces[b].t, traces[b].fcinv, DrawOf(rand, b),
        PartOf(l, pp, b), q);
    }
  }

  lemma OneBinDrawn<V(!new)>(
    s: Space<Block, V>, l: Layout, c: Threads.Config, search: Search, keys: seq<Block>, x: seq<V>, pp: seq<V>, b: nat,
    trace: Trace, rand: Option<Randomness<Block, V>>)
    requires l.Fits() && |x| == |keys| == |c.bins| && |pp| == l.Size() && b < l.numBins
    requires BinDone(s, l, c, search, keys, x, pp, b, trace, rand)
    ensures BinDrawn(s, l.param, search, BinKeys(c, keys, b), trace.t, trace.fcinv, rand, PartOf(l, pp, b))
  {
    hide BinKeys, BinDrawn, BinPart, TraceOf, MainsDecode, BinEncoded, BinCancels, Pick, BinItems;
  }

  /** Where the entries of a part stand in the output. */
  lemma PartEntry<V>(l: Layout, pp: seq<V>, b: nat, q: nat)
    requires |pp| == l.Size() && b < l.numBins && q < l.PartSize()
    ensures b * l.param.Size() + q < |pp| && pp[b * l.param.Size() + q] == PartOf(l, pp, b)[q]
  {
    PartInRange(l.numBins, b, l.PartSize());
    Next(b, l.PartSize());
  }

  lemma DrawnEntry<V>(
    s: Space<Block, V>, param: PaxosParam, search: Search, hashes: seq<Block>, t: Triangle, fcinv: seq<seq<nat>>,
    rand: Option<Randomness<Block, V>>, p: seq<V>, q: nat)
    requires BinDrawn(s, param, search, hashes, t, fcinv, rand, p) && q < param.sparseSize && q !in t.mainCols
    ensures q < |p| && (rand.Some? ==> q < |rand.value.sparse|)
    ensures p[q] == if rand.Some? then rand.value.sparse[q] else s.vzero
  {
    hide DenseDrawn, DenseBitsDrawn;
  }

  /** All keys of a bin decode exactly when its draw cancels; the keys of main rows always do. */
  lemma AllBinsDone<V(!new)>(
    s: Space<Block, V>, l: Layout, c: Threads.Config, search: Search, keys: seq<Block>, x: seq<V>, pp: seq<V>,
    traces: seq<Trace>, rand: Option<seq<Randomness<Block, V>>>, values: seq<V>)
    requires Sorted(l, c, keys) && |x| == |keys| == |values| && |pp| == l.Size()
    requires BinsDone(s, l, c, search, keys, x, pp, traces, rand)
    requires KeysDecode(s, l, keys, values, pp)
    ensures l.Fits() && |keys| == |c.bins|
    ensures Traced(l, c, keys, traces) && BinByBin(s, l, c, keys, x, traces, rand, values)
  {
    hide KeyValue, BinEncoded, TraceOf, DrawCancels, BinKeys, BinItems, MainsDecode, BinDrawn, Threads.NoOverflow,
      BinOf, Layout.Valid;
    LayoutFacts(l);
    forall b | 0 <= b < l.numBins
      ensures DrawCancelsIn(s, l, c, keys, traces, rand, b) <==>
        forall i :: 0 <= i < |keys| && BinOf(keys[i], l.numBins) == b ==> values[i] == x[i]
      ensures TraceOf(l.param, BinKeys(c, keys, b), traces[b].t, traces[b].fcinv)
    {
      assert BinDone(s, l, c, search, keys, x, pp, b, traces[b], DrawOf(rand, b));
      EncodedItems(s, l, c, keys, x, pp, b);
    }
    forall b, k | 0 <= b < l.numBins && 0 <= k < |traces[b].t.mainRows|
      ensures GivenValue(BinItems(c, b), traces[b].t.mainRows[k], values, x)
    {
      assert BinDone(s, l, c, search, keys, x, pp, b, traces[b], DrawOf(rand, b));
      MainKey(s, l, c, keys, x, pp, b, traces[b].t, k, values);
    }
  }

  lemma MainKey<V(!new)>(
    s: Space<Block, V>, l: Layout, c: Threads.Config, keys: seq<Block>, x: seq<V>, pp: seq<V>, b: nat, t: Triangle,
    k: nat, values: seq<V>)
    requires Sorted(l, c, keys) && |x| == |keys| == |values| && |pp| == l.Size() && b < l.numBins
    requires l.Fits() && |keys| == |c.bins| && (b + 1) * l.PartSize() <= |pp| && k < |t.mainRows|
    requires MainsDecode(s, l.param, BinKeys(c, keys, b), t, BinPart(pp, b, l.PartSize()), Pick(x, BinItems(c, b)))
    requires KeysDecode(s, l, keys, values, pp)
    ensures GivenValue(BinItems(c, b), t.mainRows[k], values, x)
  {
    hide Pow2, BinOf, HashValue, BinPart, Threads.NoOverflow, Threads.Items;
    var items, part := BinItems(c, b), BinPart(pp, b, l.PartSize());
    assert MainDecodes(s, l.param, BinKeys(c, keys, b), t.mainRows[k], part, Pick(x, items));
    Threads.ItemsExact(c.bins, b, 0, |c.bins|);
    var j := t.mainRows[k];
    assert items[j] in items;
    assert HashValue(s, BinKeys(c, keys, b)[j], l.param, part) == KeyValue(s, l, keys[items[j]], pp);
  }

  /** All keys get their values exactly when every draw cancels. */
  lemma BinsMakeAll<V(!new)>(
    s: Space<Block, V>, l: Layout, c: Threads.Config, keys: seq<Block>, x: seq<V>, traces: seq<Trace>,
    rand: Option<seq<Randomness<Block, V>>>, values: seq<V>)
    requires Sorted(l, c, keys) && l.Fits() && |x| == |keys| == |values| == |c.bins|
    requires BinByBin(s, l, c, keys, x, traces, rand, values)
    ensures values == x <==> DrawsCancel(s, l, c, keys, traces, rand)
    ensures rand.None? ==> values == x
  {
    hide DrawCancels, BinKeys, BinItems, Threads.NoOverflow, BinOf, RowsFor, Layout.Valid;
    if DrawsCancel(s, l, c, keys, traces, rand) {
      forall i | 0 <= i < |keys|
        ensures values[i] == x[i]
      {
        assert DrawCancelsIn(s, l, c, keys, traces, rand, BinOf(keys[i], l.numBins));
      }
    }
  }
}
