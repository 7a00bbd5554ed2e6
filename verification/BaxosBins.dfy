/** The work of one thread of the binned solver and decoder: merging a bin in place, and decoding through the bins. */
module BaxosBins {
  import opened Algebra
  import opened Words
  import opened Libdivide
  import opened PaxosCore
  import opened PaxosDecode
  import opened PaxosBinary
  import opened PaxosBinaryDecode
  import BlockField
  import H = PaxosHash
  import Threads = BaxosSolve

  type Block = BlockField.Block

  // Merging.

  /** The segments of the first k threads, one after the other. */
  ghost function Merged<T>(s: seq<T>, begin: nat, perThread: nat, sizes: seq<nat>, k: nat): (r: seq<T>)
    requires k <= |sizes| && Segments(|s|, begin, perThread, sizes)
  {
    if k == 0 then []
    else
      Merged(s, begin, perThread, sizes, k - 1) +
      s[SegmentStart(begin, perThread, k - 1)..SegmentStart(begin, perThread, k - 1) + sizes[k - 1]]
  }

  function SegmentStart(begin: nat, perThread: nat, t: nat): nat {
    begin + perThread * t
  }

  /** Every thread's segment stays in its room, and all rooms are inside the backing. */
  ghost predicate Segments(length: nat, begin: nat, perThread: nat, sizes: seq<nat>) {
    && (forall t :: 0 <= t < |sizes| ==> sizes[t] <= perThread)
    && (forall t :: 0 <= t < |sizes| ==> SegmentStart(begin, perThread, t) + perThread <= length)
  }

  function Total(sizes: seq<nat>, k: nat): nat
    requires k <= |sizes|
  {
    if k == 0 then 0 else Total(sizes, k - 1) + sizes[k - 1]
  }

  lemma {:induction false} MergedLength<T>(s: seq<T>, begin: nat, perThread: nat, sizes: seq<nat>, k: nat)
    requires k <= |sizes| && Segments(|s|, begin, perThread, sizes)
    ensures |Merged(s, begin, perThread, sizes, k)| == Total(sizes, k)
    ensures begin + Total(sizes, k) <= SegmentStart(begin, perThread, k)
  {
    hide SegmentStart, Segments;
    FirstStart(begin, perThread);
    if k > 0 {
      MergedLength(s, begin, perThread, sizes, k - 1);
      StartOrder(begin, perThread, k - 1, k);
      SegmentFits(|s|, begin, perThread, sizes, k - 1);
    }
  }

  /** Moves a segment down over itself, as memmove does. */
  method MoveDown<T>(a: array<T>, from: nat, to: nat, size: nat)
    requires to <= from && from + size <= a.Length
    modifies a
    ensures a[..] == Threads.Moved(old(a[..]), from, to, size)
    ensures a[..][to..to + size] == old(a[..])[from..from + size]
    ensures forall q :: 0 <= q < a.Length && !(to <= q < to + size) ==> a[q] == old(a[q])
  {
    hide Threads.Moved;
    for j := 0 to size
      invariant forall q :: to <= q < to + j ==> a[q] == old(a[q + (from - to)])
      invariant forall q :: 0 <= q < a.Length && !(to <= q < to + j) ==> a[q] == old(a[q])
    {
      a[to + j] := a[from + j];
    }
    MovedSegment(old(a[..]), a[..], from, to, size);
  }

  lemma MovedSegment<T>(s: seq<T>, r: seq<T>, from: nat, to: nat, size: nat)
    requires to <= from && from + size <= |s| == |r|
    requires forall q :: to <= q < to + size ==> r[q] == s[q + (from - to)]
    requires forall q :: 0 <= q < |s| && !(to <= q < to + size) ==> r[q] == s[q]
    ensures r == Threads.Moved(s, from, to, size) && r[to..to + size] == s[from..from + size]
  {
    assert r == r[..to] + r[to..to + size] + r[to + size..];
  }

  /** The first i segments of s are merged in a; the later segments and the other bins are where they were. */
  ghost predicate MergedUpTo<T>(a: seq<T>, s: seq<T>, begin: nat, perThread: nat, sizes: seq<nat>, i: nat)
    requires i <= |sizes| && Segments(|s|, begin, perThread, sizes)
  {
    && |a| == |s| && begin + Total(sizes, i) <= |a|
    && a[begin..begin + Total(sizes, i)] == Merged(s, begin, perThread, sizes, i)
    && forall q :: 0 <= q < begin || SegmentStart(begin, perThread, i) <= q < |s| ==> a[q] == s[q]
  }

  lemma MergedRoom<T>(a: seq<T>, s: seq<T>, begin: nat, perThread: nat, sizes: seq<nat>, i: nat)
    requires i < |sizes| && Segments(|s|, begin, perThread, sizes) && MergedUpTo(a, s, begin, perThread, sizes, i)
    ensures |a| == |s|
    ensures var from := SegmentStart(begin, perThread, i);
      begin + Total(sizes, i) <= from && from + sizes[i] <= |a| && a[from..from + sizes[i]] == s[from..from + sizes[i]]
  {
    hide SegmentStart;
    MergedLength(s, begin, perThread, sizes, i);
    StartOrder(begin, perThread, i, i + 1);
  }

  /** Only a[to..to + size] has changed, to the given segment. */
  ghost predicate WroteSegment<T>(a: seq<T>, a': seq<T>, to: nat, segment: seq<T>) {
    && |a'| == |a| && to + |segment| <= |a| && a'[to..to + |segment|] == segment
    && forall q :: 0 <= q < to || to + |segment| <= q < |a| ==> a'[q] == a[q]
  }

  lemma AppendSegment<T>(a: seq<T>, a': seq<T>, begin: nat, to: nat, segment: seq<T>)
    requires begin <= to && WroteSegment(a, a', to, segment)
    ensures a'[begin..to + |segment|] == a[begin..to] + segment
  {
    assert a'[begin..to] == a[begin..to];
    assert a'[begin..to + |segment|] == a'[begin..to] + a'[to..to + |segment|];
  }

  lemma SegmentFits(length: nat, begin: nat, perThread: nat, sizes: seq<nat>, i: nat)
    requires i < |sizes| && Segments(length, begin, perThread, sizes)
    ensures sizes[i] <= perThread && SegmentStart(begin, perThread, i) + perThread <= length
  {}

  lemma MergedExtends<T>(a: seq<T>, a': seq<T>, s: seq<T>, begin: nat, perThread: nat, sizes: seq<nat>, i: nat, to: nat)
    requires i < |sizes| && Segments(|s|, begin, perThread, sizes) && MergedUpTo(a, s, begin, perThread, sizes, i)
    requires to == begin + Total(sizes, i) && SegmentStart(begin, perThread, i) + sizes[i] <= |s|
    requires WroteSegment(a, a', to, s[SegmentStart(begin, perThread, i)..SegmentStart(begin, perThread, i) + sizes[i]])
    ensures MergedUpTo(a', s, begin, perThread, sizes, i + 1)
  {
    hide SegmentStart, Segments, Merged, Total;
    var from := SegmentStart(begin, perThread, i);
    SegmentFits(|s|, begin, perThread, sizes, i);
    MergedLength(s, begin, perThread, sizes, i);
    StartOrder(begin, perThread, i, i + 1);
    MergedNext(s, begin, perThread, sizes, i);
    var segment := s[from..from + sizes[i]];
    AppendSegment(a, a', begin, to, segment);
    assert to + |segment| == begin + Total(sizes, i + 1);
  }

  lemma MergedNext<T>(s: seq<T>, begin: nat, perThread: nat, sizes: seq<nat>, i: nat)
    requires i < |sizes| && Segments(|s|, begin, perThread, sizes)
    requires SegmentStart(begin, perThread, i) + sizes[i] <= |s|
    ensures Total(sizes, i + 1) == Total(sizes, i) + sizes[i]
    ensures Merged(s, begin, perThread, sizes, i + 1) == Merged(s, begin, perThread, sizes, i) +
      s[SegmentStart(begin, perThread, i)..SegmentStart(begin, perThread, i) + sizes[i]]
  {
    hide SegmentStart, Segments;
  }

  /** Appends the next segment to the merged ones. */
  method MergeNext<T>(a: array<T>, ghost s: seq<T>, begin: nat, perThread: nat, sizes: seq<nat>, i: nat, binPos: nat)
    requires i < |sizes| && Segments(|s|, begin, perThread, sizes) && binPos == Total(sizes, i)
    requires MergedUpTo(a[..], s, begin, perThread, sizes, i)
    modifies a
    ensures MergedUpTo(a[..], s, begin, perThread, sizes, i + 1)
  {
    hide SegmentStart, MergedUpTo, Segments;
    MergedRoom(a[..], s, begin, perThread, sizes, i);
    ghost var before := a[..];
    var from := SegmentStart(begin, perThread, i);
    MoveDown(a, from, begin + binPos, sizes[i]);
    MergedExtends(before, a[..], s, begin, perThread, sizes, i, begin + binPos);
  }

  lemma FirstMerged<T>(s: seq<T>, begin: nat, perThread: nat, sizes: seq<nat>)
    requires |sizes| >= 1 && Segments(|s|, begin, perThread, sizes)
    ensures Total(sizes, 1) == sizes[0] && MergedUpTo(s, s, begin, perThread, sizes, 1)
  {
    hide SegmentStart;
    FirstStart(begin, perThread);
    OneTotal(sizes);
    assert SegmentStart(begin, perThread, 0) + perThread <= |s|;
    assert Merged(s, begin, perThread, sizes, 1) == Merged(s, begin, perThread, sizes, 0) + s[begin..begin + sizes[0]];
  }

  lemma OneTotal(sizes: seq<nat>)
    requires |sizes| >= 1
    ensures Total(sizes, 1) == sizes[0]
  {
    assert Total(sizes, 0) == 0;
  }

  lemma FirstStart(begin: nat, perThread: nat)
    ensures SegmentStart(begin, perThread, 0) == begin
  {}

  /** Closes the gaps between the segments of one bin, in the hashes and in the values; other bins are not touched. */
  method MergeBin<A, B>(hashes: array<A>, values: array<B>, begin: nat, perThread: nat, sizes: seq<nat>)
    returns (binPos: nat)
    requires |sizes| >= 1 && hashes.Length == values.Length && Segments(hashes.Length, begin, perThread, sizes)
    requires hashes as object != values
    modifies hashes, values
    ensures binPos == Total(sizes, |sizes|)
    ensures MergedUpTo(hashes[..], old(hashes[..]), begin, perThread, sizes, |sizes|)
    ensures MergedUpTo(values[..], old(values[..]), begin, perThread, sizes, |sizes|)
  {
    hide MergedUpTo, Segments;
    ghost var h0, v0 := hashes[..], values[..];
    binPos := sizes[0];
    FirstMerged(h0, begin, perThread, sizes);
    FirstMerged(v0, begin, perThread, sizes);
    for i := 1 to |sizes|
      invariant binPos == Total(sizes, i)
      invariant MergedUpTo(hashes[..], h0, begin, perThread, sizes, i)
      invariant MergedUpTo(values[..], v0, begin, perThread, sizes, i)
    {
      MergeNext(hashes, h0, begin, perThread, sizes, i, binPos);
      MergeNext(values, v0, begin, perThread, sizes, i, binPos);
      binPos := binPos + sizes[i];
    }
  }

  lemma StartOrder(begin: nat, perThread: nat, t: nat, u: nat)
    requires t < u
    ensures begin <= SegmentStart(begin, perThread, t)
    ensures SegmentStart(begin, perThread, t) + perThread <= SegmentStart(begin, perThread, u)
  {
    MulLe(0, t, perThread);
    MulLe(t + 1, u, perThread);
    Next(t, perThread);
  }

  // Bins.

  /** The words of a hash folded to one. */
  function Compress(h: Block): (x: nat)
    ensures x < Pow2(H.WORD)
  {
    var low, high, top := H.Number(h, 0, H.WORD), H.Number(h, H.WORD, H.WORD), H.Number(h, 96, 32);
    Pow2Grows(32, H.WORD);
    XorBelow(H.WORD, low, high);
    XorBelow(H.WORD, Xor(low, high), top);
    Xor(Xor(low, high), top)
  }

  function BinOf(h: Block, numBins: nat): (b: nat)
    requires numBins > 0
    ensures b < numBins
  {
    Compress(h) % numBins
  }

  /** The bins of thirty-two hashes, by the precomputed divider. */
  method BinsOf32(hashes: seq<Block>, numBins: nat, divider: Divider, binIdxs: array<nat>)
    requires |hashes| == LANES == binIdxs.Length && 0 < numBins < Pow2(H.WORD)
    requires divider == DividerOf(H.WORD, numBins, false)
    modifies binIdxs
    ensures forall k :: 0 <= k < LANES ==> binIdxs[k] == BinOf(hashes[k], numBins)
  {
    hide Pow2, DividerOf, Compress;
    for k := 0 to LANES
      invariant forall j :: 0 <= j < k ==> binIdxs[j] == Compress(hashes[j])
    {
      binIdxs[k] := Compress(hashes[k]);
    }
    H.Mod32(binIdxs, divider, numBins);
  }

  /** The columns of a row are distinct; the bits of a hash, if they are used, are enough for the dense columns. */
  ghost predicate Usable(param: PaxosParam) {
    param.weight <= param.sparseSize && (param.dt == Binary ==> param.denseSize <= H.WORD)
  }

  /** Moreover the columns fit in a word, and there is a power of the hash to begin with, if powers are used. */
  ghost predicate Decodable(param: PaxosParam) {
    Usable(param) && param.weight >= 1 && param.sparseSize < Pow2(H.WORD - 1) && (param.dt == GF128 ==>
      param.denseSize >= 1)
  }

  /** The values with bits for coefficients. */
  function Bits<V>(s: Space<Block, V>): Space<bool, V> {
    BitSpace(s.vzero, s.xor)
  }

  lemma BitsLawful<V(!new)>(s: Space<Block, V>)
    requires Laws(s)
    ensures BitLaws(Bits(s))
  {
    BitSpaceLaws(s.vzero, s.xor);
  }

  /** What a hash decodes to in a bin: the dense part is weighted by powers of the hash, or by its bits. */
  ghost function HashValue<V>(s: Space<Block, V>, h: Block, param: PaxosParam, p: seq<V>): V
    requires Usable(param) && |p| == param.Size()
  {
    H.RowOfGood(h, param.weight, param.sparseSize);
    var row := H.RowOf(h, param.weight, param.sparseSize);
    match param.dt
    case GF128 => Decoded(s, row, h, p, param.sparseSize, param.denseSize)
    case Binary => DecodedBits(Bits(s), row, h, p, param.sparseSize, param.denseSize)
  }

  /** The rows written one after the other, as a sequence of rows. */
  method RowsOf(hashes: seq<Block>, weight: nat, sparse: nat, row: array<nat>) returns (rows: seq<seq<nat>>)
    requires |hashes| == LANES && weight <= sparse < Pow2(H.WORD - 1) && row.Length == H.RowStart(0, weight, LANES)
    modifies row
    ensures |rows| == LANES && forall k :: 0 <= k < LANES ==> rows[k] == H.RowOf(hashes[k], weight, sparse)
  {
    hide Pow2, H.RowOf, H.RowStart;
    H.BuildRow32(hashes, weight, sparse, row, 0);
    var flat := row[..];
    rows := [];
    for k := 0 to LANES
      invariant |rows| == k && forall j :: 0 <= j < k ==> rows[j] == H.RowOf(hashes[j], weight, sparse)
    {
      assert H.RowBuilt(flat, H.RowStart(0, weight, k), hashes[k], weight, sparse);
      rows := rows + [flat[H.RowStart(0, weight, k)..H.RowStart(0, weight, k) + weight]];
    }
  }

  /** The first m hashes are decoded to their places; the later places and all others are as before. */
  ghost predicate Scattered<V>(
    s: Space<Block, V>, hashes: seq<Block>, inIdxs: seq<nat>, param: PaxosParam, p: seq<V>, add: bool,
    before: seq<V>, after: seq<V>, m: nat)
    requires Usable(param) && |p| == param.Size() && |inIdxs| == |hashes| && m <= |hashes|
    requires InRange(inIdxs, |before|) && |before| == |after|
  {
    && (forall j :: 0 <= j < m ==>
      after[inIdxs[j]] == Slot(s, add, before[inIdxs[j]], HashValue(s, hashes[j], param, p)))
    && (forall j :: m <= j < |hashes| ==> after[inIdxs[j]] == before[inIdxs[j]])
    && forall q :: 0 <= q < |before| && q !in inIdxs ==> after[q] == before[q]
  }

  /** Writes the next decoded value to its place. */
  method Scatter<V>(
    s: Space<Block, V>, ghost hashes: seq<Block>, inIdxs: seq<nat>, ghost param: PaxosParam, ghost p: seq<V>,
    add: bool, ghost before: seq<V>, values: array<V>, i: nat, v: V)
    requires Usable(param) && |p| == param.Size() && |inIdxs| == |hashes| && i < |hashes| && Distinct(inIdxs)
    requires InRange(inIdxs, |before|) && |before| == values.Length
    requires v == HashValue(s, hashes[i], param, p)
    requires Scattered(s, hashes, inIdxs, param, p, add, before, values[..], i)
    modifies values
    ensures Scattered(s, hashes, inIdxs, param, p, add, before, values[..], i + 1)
  {
    hide HashValue;
    assert forall j :: 0 <= j < i ==> inIdxs[j] != inIdxs[i];
    values[inIdxs[i]] := if add then s.xor(values[inIdxs[i]], v) else v;
  }

  /** Decodes the hashes of one bin to the listed places, thirty-two at a time and the rest one by one. */
  method DecodeBin<V(!new)>(
    s: Space<Block, V>, hashes: seq<Block>, inIdxs: seq<nat>, param: PaxosParam, p: seq<V>, add: bool,
    values: array<V>)
    requires Laws(s) && Decodable(param) && |p| == param.Size()
    requires |inIdxs| == |hashes| && Distinct(inIdxs) && InRange(inIdxs, values.Length)
    modifies values
    ensures Scattered(s, hashes, inIdxs, param, p, add, old(values[..]), values[..], |hashes|)
  {
    hide Laws, Pow2, HashValue, H.RowOf, H.RowStart, Scattered;
    ghost var before := values[..];
    NothingScattered(s, hashes, inIdxs, param, p, add, before);
    var n := |hashes|;
    var main := n / LANES * LANES;
    var row := new nat[H.RowStart(0, param.weight, LANES)];
    var buffer := new V[LANES](_ => s.vzero);
    var i := 0;
    while i < main
      invariant 0 <= i <= main && i % LANES == 0
      invariant Scattered(s, hashes, inIdxs, param, p, add, before, values[..], i)
    {
      DecodeHashes32(s, hashes[i..i + LANES], param, p, row, buffer);
      var decoded := buffer[..];
      for k := 0 to LANES
        invariant Scattered(s, hashes, inIdxs, param, p, add, before, values[..], i + k)
      {
        assert hashes[i..i + LANES][k] == hashes[i + k];
        Scatter(s, hashes, inIdxs, param, p, add, before, values, i + k, decoded[k]);
      }
      i := i + LANES;
    }
    while i < n
      invariant main <= i <= n
      invariant Scattered(s, hashes, inIdxs, param, p, add, before, values[..], i)
    {
      var v := DecodeHash(s, hashes[i], param, p, row);
      Scatter(s, hashes, inIdxs, param, p, add, before, values, i, v);
      i := i + 1;
    }
  }

  lemma NothingScattered<V>(
    s: Space<Block, V>, hashes: seq<Block>, inIdxs: seq<nat>, param: PaxosParam, p: seq<V>, add: bool,
    before: seq<V>)
    requires Usable(param) && |p| == param.Size() && |inIdxs| == |hashes| && InRange(inIdxs, |before|)
    ensures Scattered(s, hashes, inIdxs, param, p, add, before, before, 0)
  {}

  method DecodeHashes32<V(!new)>(
    s: Space<Block, V>, hashes: seq<Block>, param: PaxosParam, p: seq<V>, row: array<nat>,
    buffer: array<V>)
    requires Laws(s) && Decodable(param) && |p| == param.Size()
    requires |hashes| == LANES == buffer.Length && row.Length == H.RowStart(0, param.weight, LANES)
    requires row as object != buffer
    modifies row, buffer
    ensures forall k :: 0 <= k < LANES ==> buffer[k] == HashValue(s, hashes[k], param, p)
  {
    hide Laws, BitLaws, Pow2, H.RowOf, H.RowStart, Decoded, DecodedBits;
    var weight, sparse, d := param.weight, param.sparseSize, param.denseSize;
    var rows := RowsOf(hashes, weight, sparse, row);
    forall k | 0 <= k < LANES
      ensures |rows[k]| == weight && InRange(rows[k], sparse)
    {
      H.RowOfGood(hashes[k], weight, sparse);
    }
    match param.dt {
      case GF128 => Decode32(s, rows, weight, hashes, p, sparse, d, buffer);
      case Binary =>
        BitsLawful(s);
        Decode32Bits(Bits(s), rows, weight, hashes, p, sparse, d, buffer);
    }
  }

  method DecodeHash<V(!new)>(
    s: Space<Block, V>, h: Block, param: PaxosParam, p: seq<V>, row: array<nat>) returns (v: V)
    requires Laws(s) && Decodable(param) && |p| == param.Size()
    requires row.Length == H.RowStart(0, param.weight, LANES)
    modifies row
    ensures v == HashValue(s, h, param, p)
  {
    hide Laws, BitLaws, Pow2, H.RowOf, Decoded, DecodedBits;
    var weight, sparse, d := param.weight, param.sparseSize, param.denseSize;
    H.RowOfGood(h, weight, sparse);
    H.BuildRow(h, weight, sparse, row, 0);
    match param.dt {
      case GF128 => v := Decode1(s, row[..weight], h, p, sparse, d);
      case Binary =>
        BitsLawful(s);
        v := Decode1Bits(Bits(s), row[..weight], h, p, sparse, d);
    }
  }

  // Decoding through the bins.

  /** The sizes and the dense mode of every bin, and the number of bins. */
  datatype Layout = Layout(param: PaxosParam, numBins: nat) {
    ghost predicate Valid() {
      Fits() && Decodable(param) && numBins < Pow2(H.WORD)
    }

    ghost predicate Fits() {
      Usable(param) && numBins > 0
    }

    /** The size of one bin's part of the output. */
    function PartSize(): nat {
      param.Size()
    }

    /** The size of the output. */
    function Size(): nat {
      numBins * PartSize()
    }
  }

  /** The part of the output that belongs to bin b. */
  function BinPart<V>(pp: seq<V>, b: nat, size: nat): (p: seq<V>)
    requires (b + 1) * size <= |pp|
    ensures |p| == size
  {
    Next(b, size);
    pp[b * size..b * size + size]
  }

  lemma PartInRange(numBins: nat, b: nat, size: nat)
    requires b < numBins
    ensures (b + 1) * size <= numBins * size
  {
    MulLe(b + 1, numBins, size);
  }

  /** What a hash decodes to: its bin's part of the output decides. */
  ghost function KeyValue<V>(s: Space<Block, V>, l: Layout, h: Block, pp: seq<V>): V
    requires l.Fits() && |pp| == l.Size()
  {
    HashValue(s, h, l.param, PartOf(l, pp, BinOf(h, l.numBins)))
  }

  /** The part of the output that belongs to bin b of a layout. */
  function PartOf<V>(l: Layout, pp: seq<V>, b: nat): (p: seq<V>)
    requires b < l.numBins && |pp| == l.Size()
    ensures |p| == l.PartSize()
  {
    PartInRange(l.numBins, b, l.PartSize());
    BinPart(pp, b, l.PartSize())
  }

  /** The keys that wait in batches: of the right bin, each once, and not yet decoded. */
  ghost predicate Waiting(
    keys: seq<Block>, numBins: nat, batches: seq<seq<Block>>, inIdxs: seq<seq<nat>>, room: nat, i: nat)
    requires numBins > 0
  {
    && |batches| == |inIdxs| == numBins && i <= |keys|
    && forall b :: 0 <= b < numBins ==> BatchOk(keys, numBins, b, batches[b], inIdxs[b], i) && |batches[b]| < room
  }

  ghost predicate BatchOk(keys: seq<Block>, numBins: nat, b: nat, batch: seq<Block>, idxs: seq<nat>, i: nat)
    requires numBins > 0
  {
    && |batch| == |idxs| && Distinct(idxs)
    && forall j :: 0 <= j < |idxs| ==>
      idxs[j] < i && idxs[j] < |keys| && batch[j] == keys[idxs[j]] && BinOf(keys[idxs[j]], numBins) == b
  }

  /** The keys before i that do not wait are decoded; nothing else is touched. */
  ghost predicate DecodedSoFar<V>(
    s: Space<Block, V>, l: Layout, keys: seq<Block>, pp: seq<V>, add: bool, before: seq<V>, after: seq<V>,
    inIdxs: seq<seq<nat>>, i: nat)
    requires l.Valid() && |pp| == l.Size() && |inIdxs| == l.numBins
  {
    && |before| == |after| == |keys|
    && forall k :: 0 <= k < |keys| ==>
      after[k] == if k < i && k !in inIdxs[BinOf(keys[k], l.numBins)]
        then Slot(s, add, before[k], KeyValue(s, l, keys[k], pp)) else before[k]
  }

  lemma AppendBatch(keys: seq<Block>, numBins: nat, b: nat, batch: seq<Block>, idxs: seq<nat>, i: nat)
    requires numBins > 0 && i < |keys| && b == BinOf(keys[i], numBins) && BatchOk(keys, numBins, b, batch, idxs, i)
    ensures BatchOk(keys, numBins, b, batch + [keys[i]], idxs + [i], i + 1)
  {
    hide BinOf;
  }

  /** Decodes one batch. */
  method FlushBin<V(!new)>(
    s: Space<Block, V>, l: Layout, keys: seq<Block>, pp: seq<V>, add: bool, values: array<V>, b: nat,
    batch: seq<Block>, idxs: seq<nat>, ghost before: seq<V>, ghost inIdxs: seq<seq<nat>>, ghost i: nat)
    requires Laws(s) && l.Valid() && |pp| == l.Size() && |inIdxs| == l.numBins && b < l.numBins
    requires idxs == inIdxs[b] && BatchOk(keys, l.numBins, b, batch, idxs, i)
    requires DecodedSoFar(s, l, keys, pp, add, before, values[..], inIdxs, i)
    modifies values
    ensures DecodedSoFar(s, l, keys, pp, add, before, values[..], inIdxs[b := []], i)
  {
    hide Laws, Pow2, Layout.Valid, BinOf, HashValue, BinPart, Slot;
    LayoutFacts(l);
    PartInRange(l.numBins, b, l.PartSize());
    forall j | 0 <= j < |batch|
      ensures HashValue(s, batch[j], l.param, BinPart(pp, b, l.PartSize())) ==
        KeyValue(s, l, keys[idxs[j]], pp)
    {
    }
    ghost var current := values[..];
    DecodeBin(s, batch, idxs, l.param, BinPart(pp, b, l.PartSize()), add, values);
    forall k | 0 <= k < |keys|
      ensures values[k] == if k < i && k !in inIdxs[b := []][BinOf(keys[k], l.numBins)]
        then Slot(s, add, before[k], KeyValue(s, l, keys[k], pp)) else before[k]
    {
      if k in idxs {
        var j :| 0 <= j < |idxs| && idxs[j] == k;
        assert current[k] == before[k];
      } else {
        assert values[k] == current[k];
      }
    }
  }

  lemma LayoutFacts(l: Layout)
    requires l.Valid()
    ensures l.Fits() && Decodable(l.param) && 0 < l.numBins < Pow2(H.WORD)
  {}

  /** A key that starts to wait is not decoded yet. */
  lemma WaitsNext<V>(
    s: Space<Block, V>, l: Layout, keys: seq<Block>, pp: seq<V>, add: bool, before: seq<V>, after: seq<V>,
    inIdxs: seq<seq<nat>>, i: nat)
    requires l.Valid() && |pp| == l.Size() && |inIdxs| == l.numBins && i < |keys|
    requires DecodedSoFar(s, l, keys, pp, add, before, after, inIdxs, i)
    ensures var b := BinOf(keys[i], l.numBins);
      DecodedSoFar(s, l, keys, pp, add, before, after, inIdxs[b := inIdxs[b] + [i]], i + 1)
  {
    hide BinOf, KeyValue, Slot, Layout.Valid;
  }

  /** Puts the next key into its batch, and decodes the batch when it is full. */
  method Enqueue<V(!new)>(
    s: Space<Block, V>, l: Layout, keys: seq<Block>, pp: seq<V>, add: bool, values: array<V>,
    batches: seq<seq<Block>>, inIdxs: seq<seq<nat>>, room: nat, i: nat, b: nat, ghost before: seq<V>)
    returns (batches': seq<seq<Block>>, inIdxs': seq<seq<nat>>)
    requires Laws(s) && l.Valid() && |pp| == l.Size() && room >= 1
    requires i < |keys| && b == BinOf(keys[i], l.numBins)
    requires Waiting(keys, l.numBins, batches, inIdxs, room, i)
    requires DecodedSoFar(s, l, keys, pp, add, before, values[..], inIdxs, i)
    modifies values
    ensures Waiting(keys, l.numBins, batches', inIdxs', room, i + 1)
    ensures DecodedSoFar(s, l, keys, pp, add, before, values[..], inIdxs', i + 1)
  {
    hide Laws, Pow2, Layout.Valid, BinOf, DecodedSoFar, BatchOk;
    LayoutFacts(l);
    WaitsNext(s, l, keys, pp, add, before, values[..], inIdxs, i);
    AppendBatch(keys, l.numBins, b, batches[b], inIdxs[b], i);
    OtherBatches(keys, l.numBins, batches, inIdxs, room, i);
    batches', inIdxs' := batches[b := batches[b] + [keys[i]]], inIdxs[b := inIdxs[b] + [i]];
    if |batches'[b]| == room {
      FlushBin(s, l, keys, pp, add, values, b, batches'[b], inIdxs'[b], before, inIdxs', i + 1);
      EmptyBatch(keys, l.numBins, b, i + 1);
      batches', inIdxs' := batches'[b := []], inIdxs'[b := []];
    }
  }

  lemma EmptyBatch(keys: seq<Block>, numBins: nat, b: nat, i: nat)
    requires numBins > 0
    ensures BatchOk(keys, numBins, b, [], [], i)
  {}

  lemma OtherBatches(keys: seq<Block>, numBins: nat, batches: seq<seq<Block>>, inIdxs: seq<seq<nat>>, room: nat, i: nat)
    requires numBins > 0 && i < |keys| && Waiting(keys, numBins, batches, inIdxs, room, i)
    ensures forall b :: 0 <= b < numBins ==> BatchOk(keys, numBins, b, batches[b], inIdxs[b], i + 1)
  {
    hide BinOf;
    forall b | 0 <= b < numBins
      ensures BatchOk(keys, numBins, b, batches[b], inIdxs[b], i + 1)
    {
      assert BatchOk(keys, numBins, b, batches[b], inIdxs[b], i);
    }
  }

  lemma NothingWaits<V>(s: Space<Block, V>, l: Layout, keys: seq<Block>, pp: seq<V>, add: bool, before: seq<V>)
    requires l.Valid() && |pp| == l.Size() && |before| == |keys|
    ensures Waiting(keys, l.numBins, seq(l.numBins, _ => []), seq(l.numBins, _ => []), 1, 0)
    ensures DecodedSoFar(s, l, keys, pp, add, before, before, seq(l.numBins, _ => []), 0)
  {
    hide Layout.Valid, BinOf, KeyValue;
    LayoutFacts(l);
  }

  lemma MoreRoom(keys: seq<Block>, numBins: nat, batches: seq<seq<Block>>, inIdxs: seq<seq<nat>>, room: nat, i: nat)
    requires numBins > 0 && room >= 1 && Waiting(keys, numBins, batches, inIdxs, 1, i)
    ensures Waiting(keys, numBins, batches, inIdxs, room, i)
  {
    hide BatchOk;
  }

  /** Decodes every key through its bin, by batches of up to 512 keys of one bin. */
  method DecodeBatch<V(!new)>(s: Space<Block, V>, l: Layout, keys: seq<Block>, pp: seq<V>, add: bool, values: array<V>)
    requires Laws(s) && l.Valid() && |pp| == l.Size() && |keys| == values.Length
    modifies values
    ensures forall k :: 0 <= k < |keys| ==>
      values[k] == Slot(s, add, old(values[k]), KeyValue(s, l, keys[k], pp))
  {
    hide Laws, Pow2, Layout.Valid, BinOf, DecodedSoFar, BatchOk, Waiting, DividerOf;
    LayoutFacts(l);
    ghost var before := values[..];
    var n := |keys|;
    var decodeSize := if n < 512 then n else 512;
    if n == 0 {
      return;
    }
    var batches: seq<seq<Block>> := seq(l.numBins, _ => []);
    var inIdxs: seq<seq<nat>> := seq(l.numBins, _ => []);
    NothingWaits(s, l, keys, pp, add, before);
    MoreRoom(keys, l.numBins, batches, inIdxs, decodeSize, 0);
    var divider := Gen(W64, l.numBins, false);
    var binIdxs := new nat[LANES](_ => 0);
    var main := n / LANES * LANES;
    var i := 0;
    while i < main
      invariant 0 <= i <= main && i % LANES == 0
      invariant Waiting(keys, l.numBins, batches, inIdxs, decodeSize, i) && |inIdxs| == l.numBins
      invariant DecodedSoFar(s, l, keys, pp, add, before, values[..], inIdxs, i)
    {
      BinsOf32(keys[i..i + LANES], l.numBins, divider.value, binIdxs);
      batches, inIdxs :=
        Enqueue32(s, l, keys, pp, add, values, batches, inIdxs, decodeSize, i, binIdxs[..], before);
      i := i + LANES;
    }
    while i < n
      invariant main <= i <= n
      invariant Waiting(keys, l.numBins, batches, inIdxs, decodeSize, i) && |inIdxs| == l.numBins
      invariant DecodedSoFar(s, l, keys, pp, add, before, values[..], inIdxs, i)
    {
      batches, inIdxs :=
        Enqueue(s, l, keys, pp, add, values, batches, inIdxs, decodeSize, i, BinOf(keys[i], l.numBins), before);
      WaitingShape(keys, l.numBins, batches, inIdxs, decodeSize, i + 1);
      i := i + 1;
    }
    FlushAll(s, l, keys, pp, add, values, batches, inIdxs, decodeSize, before);
  }

  /** Puts thirty-two keys into their batches. */
  method Enqueue32<V(!new)>(
    s: Space<Block, V>, l: Layout, keys: seq<Block>, pp: seq<V>, add: bool, values: array<V>,
    batches0: seq<seq<Block>>, inIdxs0: seq<seq<nat>>, room: nat, i: nat, binIdxs: seq<nat>, ghost before: seq<V>)
    returns (batches: seq<seq<Block>>, inIdxs: seq<seq<nat>>)
    requires Laws(s) && l.Valid() && |pp| == l.Size() && room >= 1 && i + LANES <= |keys| && |binIdxs| == LANES
    requires forall j :: 0 <= j < LANES ==> binIdxs[j] == BinOf(keys[i..i + LANES][j], l.numBins)
    requires |inIdxs0| == l.numBins && Waiting(keys, l.numBins, batches0, inIdxs0, room, i)
    requires DecodedSoFar(s, l, keys, pp, add, before, values[..], inIdxs0, i)
    modifies values
    ensures |inIdxs| == l.numBins && Waiting(keys, l.numBins, batches, inIdxs, room, i + LANES)
    ensures DecodedSoFar(s, l, keys, pp, add, before, values[..], inIdxs, i + LANES)
  {
    hide Laws, Pow2, Layout.Valid, BinOf, DecodedSoFar, BatchOk, Waiting;
    LayoutFacts(l);
    batches, inIdxs := batches0, inIdxs0;
    for k := 0 to LANES
      invariant Waiting(keys, l.numBins, batches, inIdxs, room, i + k) && |inIdxs| == l.numBins
      invariant DecodedSoFar(s, l, keys, pp, add, before, values[..], inIdxs, i + k)
    {
      assert keys[i..i + LANES][k] == keys[i + k];
      batches, inIdxs := Enqueue(s, l, keys, pp, add, values, batches, inIdxs, room, i + k, binIdxs[k], before);
      WaitingShape(keys, l.numBins, batches, inIdxs, room, i + k + 1);
    }
  }

  lemma WaitingShape(keys: seq<Block>, numBins: nat, batches: seq<seq<Block>>, inIdxs: seq<seq<nat>>, room: nat, i: nat)
    requires numBins > 0 && Waiting(keys, numBins, batches, inIdxs, room, i)
    ensures |batches| == |inIdxs| == numBins
    ensures forall b :: 0 <= b < numBins ==> BatchOk(keys, numBins, b, batches[b], inIdxs[b], i)
  {
    hide BatchOk;
  }

  /** Decodes the keys that still wait, bin by bin. */
  method FlushAll<V(!new)>(
    s: Space<Block, V>, l: Layout, keys: seq<Block>, pp: seq<V>, add: bool, values: array<V>,
    batches: seq<seq<Block>>, inIdxs: seq<seq<nat>>, room: nat, ghost before: seq<V>)
    requires Laws(s) && l.Valid() && |pp| == l.Size() && |keys| == values.Length
    requires |inIdxs| == l.numBins && Waiting(keys, l.numBins, batches, inIdxs, room, |keys|)
    requires DecodedSoFar(s, l, keys, pp, add, before, values[..], inIdxs, |keys|)
    modifies values
    ensures forall k :: 0 <= k < |keys| ==>
      |before| == |keys| && values[k] == Slot(s, add, before[k], KeyValue(s, l, keys[k], pp))
  {
    hide Laws, Pow2, Layout.Valid, BinOf, DecodedSoFar, BatchOk, Waiting, Slot, KeyValue;
    LayoutFacts(l);
    WaitingShape(keys, l.numBins, batches, inIdxs, room, |keys|);
    ghost var left := inIdxs;
    for b := 0 to l.numBins
      invariant |left| == l.numBins && (forall q :: 0 <= q < l.numBins ==> left[q] == if q < b then [] else inIdxs[q])
      invariant DecodedSoFar(s, l, keys, pp, add, before, values[..], left, |keys|)
    {
      if |batches[b]| != 0 {
        FlushBin(s, l, keys, pp, add, values, b, batches[b], inIdxs[b], before, left, |keys|);
      } else {
        NoBatch(keys, l.numBins, b, batches[b], inIdxs[b], |keys|);
        assert left[b := []] == left;
      }
      left := left[b := []];
    }
    AllDecoded(s, l, keys, pp, add, before, values[..], left);
  }

  lemma NoBatch(keys: seq<Block>, numBins: nat, b: nat, batch: seq<Block>, idxs: seq<nat>, i: nat)
    requires numBins > 0 && BatchOk(keys, numBins, b, batch, idxs, i) && batch == []
    ensures idxs == []
  {}

  lemma AllDecoded<V>(
    s: Space<Block, V>, l: Layout, keys: seq<Block>, pp: seq<V>, add: bool, before: seq<V>, after: seq<V>,
    inIdxs: seq<seq<nat>>)
    requires l.Valid() && |pp| == l.Size() && |inIdxs| == l.numBins
    requires forall b :: 0 <= b < l.numBins ==> inIdxs[b] == []
    requires DecodedSoFar(s, l, keys, pp, add, before, after, inIdxs, |keys|)
    ensures |before| == |after| == |keys|
    ensures forall k :: 0 <= k < |keys| ==> after[k] == Slot(s, add, before[k], KeyValue(s, l, keys[k], pp))
  {
    hide Layout.Valid, KeyValue, Slot;
  }
}
