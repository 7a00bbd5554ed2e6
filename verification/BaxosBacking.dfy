/** The shared arrays of hashes and values: what a run leaves in them for a bin, and what merging makes of it. */
module BaxosBacking {
  import opened Algebra
  import opened Words
  import opened BaxosBins
  import opened Threads = BaxosSolve

  /** The entries of s at the listed places. */
  ghost function Pick<T>(s: seq<T>, items: seq<nat>): (r: seq<T>)
    requires InRange(items, |s|)
    ensures |r| == |items|
  {
    seq(|items|, j requires 0 <= j < |items| => s[items[j]])
  }

  /** The items of bin b that thread t hashed. */
  ghost function Segment(c: Config, b: nat, t: nat): (items: seq<nat>)
    requires c.Valid() && t < c.numThreads
    ensures InRange(items, |c.bins|)
  {
    Tiles(c, t);
    ItemsInRange(c.bins, b, c.Begin(t), c.Begin(t + 1));
    Items(c.bins, b, c.Begin(t), c.Begin(t + 1))
  }

  lemma ItemsInRange(bins: seq<nat>, b: nat, lo: nat, hi: nat)
    requires lo <= hi <= |bins|
    ensures InRange(Items(bins, b, lo, hi), |bins|)
  {
    ItemsExact(bins, b, lo, hi);
    var items := Items(bins, b, lo, hi);
    forall j | 0 <= j < |items|
      ensures items[j] < |bins|
    {
      assert items[j] in items;
    }
  }

  /** The number of items of bin b by thread. */
  ghost function SegmentSizes(c: Config, b: nat): (sizes: seq<nat>)
    requires c.Valid()
    ensures |sizes| == c.numThreads
  {
    seq(c.numThreads, t requires 0 <= t < c.numThreads => |Segment(c, b, t)|)
  }

  /** The backing array holds what the threads put into bin b, each in its own part. */
  ghost predicate Backed<T>(backing: seq<T>, source: seq<T>, c: Config, b: nat)
    requires c.Valid()
  {
    && |source| == |c.bins| && BinBegin(c, b) + Room(c) <= |backing|
    && forall t :: 0 <= t < c.numThreads ==> SegmentBacked(backing, source, c, b, t)
  }

  ghost predicate SegmentBacked<T>(backing: seq<T>, source: seq<T>, c: Config, b: nat, t: nat)
    requires c.Valid() && t < c.numThreads
  {
    var from, items := SegmentStart(BinBegin(c, b), c.perThread, t), Segment(c, b, t);
    && |items| <= c.perThread && from + |items| <= |backing| && InRange(items, |source|)
    && backing[from..from + |items|] == Pick(source, items)
  }

  lemma PickConcat<T>(s: seq<T>, a: seq<nat>, b: seq<nat>)
    requires InRange(a, |s|) && InRange(b, |s|)
    ensures Pick(s, a + b) == Pick(s, a) + Pick(s, b)
  {}

  lemma RoomForSegments<T>(backing: seq<T>, source: seq<T>, c: Config, b: nat)
    requires c.Valid() && Backed(backing, source, c, b)
    ensures Segments(|backing|, BinBegin(c, b), c.perThread, SegmentSizes(c, b))
  {
    hide Config.Begin, Items, BinBegin, Pick, Segment;
    forall t | 0 <= t < c.numThreads
      ensures |Segment(c, b, t)| <= c.perThread
      ensures SegmentStart(BinBegin(c, b), c.perThread, t) + c.perThread <= |backing|
    {
      assert SegmentBacked(backing, source, c, b, t);
      SegmentEnd(c, BinBegin(c, b), t);
    }
  }

  lemma SegmentEnd(c: Config, begin: nat, t: nat)
    requires t < c.numThreads
    ensures begin <= SegmentStart(begin, c.perThread, t)
    ensures SegmentStart(begin, c.perThread, t) + c.perThread <= begin + Room(c)
    ensures SegmentStart(begin, c.perThread, c.numThreads) == begin + Room(c)
  {
    Next(t, c.perThread);
    MulLe(t + 1, c.numThreads, c.perThread);
    MulLe(0, t, c.perThread);
  }

  /** The merged segments of the first k threads are the items that they hashed, in input order. */
  lemma {:induction false} MergedItems<T>(backing: seq<T>, source: seq<T>, c: Config, b: nat, k: nat)
    requires c.Valid() && Backed(backing, source, c, b) && k <= c.numThreads
    requires Segments(|backing|, BinBegin(c, b), c.perThread, SegmentSizes(c, b))
    ensures c.Begin(k) <= |c.bins| && InRange(Items(c.bins, b, 0, c.Begin(k)), |source|)
    ensures Merged(backing, BinBegin(c, b), c.perThread, SegmentSizes(c, b), k) ==
      Pick(source, Items(c.bins, b, 0, c.Begin(k)))
  {
    hide Config.Begin, BinBegin, SegmentStart, Segments, Pick, Items;
    Tiles(c, 0);
    if k == 0 {
      NoItems(source, c.bins, b);
    } else {
      MergedItems(backing, source, c, b, k - 1);
      Tiles(c, k - 1);
      assert SegmentBacked(backing, source, c, b, k - 1);
      ItemsSplit(c.bins, b, 0, c.Begin(k - 1), c.Begin(k));
      PickConcat(source, Items(c.bins, b, 0, c.Begin(k - 1)), Segment(c, b, k - 1));
    }
  }

  lemma NoItems<T>(source: seq<T>, bins: seq<nat>, b: nat)
    ensures Items(bins, b, 0, 0) == [] && Pick(source, Items(bins, b, 0, 0)) == []
  {}

  ghost predicate SameOutside<T>(a: seq<T>, a': seq<T>, lo: nat, hi: nat) {
    |a'| == |a| && forall q :: 0 <= q < |a| && !(lo <= q < hi) ==> a'[q] == a[q]
  }

  /** Every other bin is outside the part of the arrays that a bin uses. */
  lemma OtherBinKept<T>(backing: seq<T>, backing': seq<T>, source: seq<T>, c: Config, b: nat, d: nat)
    requires c.Valid() && b != d && Backed(backing, source, c, d)
    requires SameOutside(backing, backing', BinBegin(c, b), BinBegin(c, b) + Room(c))
    ensures Backed(backing', source, c, d)
  {
    hide Config.Begin, Segment, Pick, BinBegin, Room;
    BinsApart(c, b, d);
    forall t | 0 <= t < c.numThreads
      ensures SegmentBacked(backing', source, c, d, t)
    {
      assert SegmentBacked(backing, source, c, d, t);
      SegmentEnd(c, BinBegin(c, d), t);
      var from, items := SegmentStart(BinBegin(c, d), c.perThread, t), Segment(c, d, t);
      assert backing'[from..from + |items|] == backing[from..from + |items|];
    }
  }

  lemma BinsApart(c: Config, b: nat, d: nat)
    requires b != d
    ensures BinBegin(c, d) + Room(c) <= BinBegin(c, b) || BinBegin(c, b) + Room(c) <= BinBegin(c, d)
  {
    Next(b, Room(c));
    Next(d, Room(c));
    if d < b {
      MulLe(d + 1, b, Room(c));
    } else {
      MulLe(b + 1, d, Room(c));
    }
  }

  /** Merging a bin leaves its keys and values, all threads together, in input order; other bins keep what they hold. */
  method MergeBacked<A, B>(
    hashes: array<A>, values: array<B>, ghost keys: seq<A>, ghost x: seq<B>, c: Config, b: nat, sizes: seq<nat>)
    returns (begin: nat, end: nat)
    requires c.Valid() && sizes == SegmentSizes(c, b) && hashes.Length == values.Length && hashes as object != values
    requires Backed(hashes[..], keys, c, b) && Backed(values[..], x, c, b)
    modifies hashes, values
    ensures begin <= end <= hashes.Length && InRange(Items(c.bins, b, 0, |c.bins|), |c.bins|)
    ensures hashes[begin..end] == Pick(keys, Items(c.bins, b, 0, |c.bins|))
    ensures values[begin..end] == Pick(x, Items(c.bins, b, 0, |c.bins|))
    ensures forall d: nat :: d != b && Backed(old(hashes[..]), keys, c, d) ==> Backed(hashes[..], keys, c, d)
    ensures forall d: nat :: d != b && Backed(old(values[..]), x, c, d) ==> Backed(values[..], x, c, d)
  {
    hide Config.Begin, Items, BinBegin, SegmentStart, Pick, Backed, SegmentSizes, Merged, Total, Segments;
    ghost var h0, v0 := hashes[..], values[..];
    RoomForSegments(h0, keys, c, b);
    begin := BinBegin(c, b);
    var size := MergeBinArrays(hashes, values, begin, c.perThread, sizes);
    end := begin + size;
    Tiles(c, 0);
    ItemsInRange(c.bins, b, 0, |c.bins|);
    MergedItems(h0, keys, c, b, c.numThreads);
    MergedItems(v0, x, c, b, c.numThreads);
    MergedLength(h0, begin, c.perThread, sizes, |sizes|);
    SegmentEnd(c, begin, 0);
    KeptBesides(h0, hashes[..], keys, c, b);
    KeptBesides(v0, values[..], x, c, b);
  }

  lemma KeptBesides<T>(backing: seq<T>, backing': seq<T>, source: seq<T>, c: Config, b: nat)
    requires c.Valid() && SameOutside(backing, backing', BinBegin(c, b), BinBegin(c, b) + Room(c))
    ensures forall d: nat :: d != b && Backed(backing, source, c, d) ==> Backed(backing', source, c, d)
  {
    hide Backed, BinBegin, Room, SameOutside;
    forall d: nat | d != b && Backed(backing, source, c, d)
      ensures Backed(backing', source, c, d)
    {
      OtherBinKept(backing, backing', source, c, b, d);
    }
  }

  /** The merge, by what it leaves in the arrays. */
  method MergeBinArrays<A, B>(hashes: array<A>, values: array<B>, begin: nat, perThread: nat, sizes: seq<nat>)
    returns (size: nat)
    requires |sizes| >= 1 && hashes.Length == values.Length && Segments(hashes.Length, begin, perThread, sizes)
    requires hashes as object != values
    modifies hashes, values
    ensures size == Total(sizes, |sizes|) && begin + size <= hashes.Length
    ensures hashes[begin..begin + size] == Merged(old(hashes[..]), begin, perThread, sizes, |sizes|)
    ensures values[begin..begin + size] == Merged(old(values[..]), begin, perThread, sizes, |sizes|)
    ensures SameOutside(old(hashes[..]), hashes[..], begin, SegmentStart(begin, perThread, |sizes|))
    ensures SameOutside(old(values[..]), values[..], begin, SegmentStart(begin, perThread, |sizes|))
  {
    hide Segments, SegmentStart, Merged;
    ghost var h0, v0 := hashes[..], values[..];
    size := BaxosBins.MergeBin(hashes, values, begin, perThread, sizes);
  }

  // The shared arrays along a run.

  /** The backing array holds what the slots of every bin say: an item's entry, or what was there before. */
  ghost predicate Mirrors<T>(a: seq<T>, source: seq<T>, before: seq<T>, c: Config, s: State)
    requires c.Valid() && s.Shape(c)
  {
    && |source| == |c.bins| && |a| == |before| == BinBegin(c, c.numBins)
    && forall b, q :: 0 <= b < c.numBins && 0 <= q < Room(c) ==>
      SlotMirrored(a, source + before, BinBegin(c, b), s.slots[b], q)
  }

  ghost predicate SlotMirrored<T>(a: seq<T>, full: seq<T>, begin: nat, slots: seq<nat>, q: nat) {
    q < |slots| && slots[q] < |full| && begin + q < |a| && a[begin + q] == full[slots[q]]
  }

  /** What a step writes to the shared array: the entry of the hashed item, or a segment moved down. */
  ghost function ArrayStep<T>(c: Config, s: State, a: seq<T>, source: seq<T>, t: nat): (r: seq<T>)
    requires c.Valid() && s.Shape(c) && CanStep(c, s, t) && |source| == |c.bins| && |a| == BinBegin(c, c.numBins)
    ensures |r| == |a|
  {
    match s.phase[t]
    case Hashing(pos) =>
      if pos == c.Begin(t + 1) then a else
      var b := c.bins[pos];
      SlotPlace(c, b, t, s.sizes[t][b]);
      a[BinBegin(c, b) + Start(c, t) + s.sizes[t][b] := source[pos]]
    case Merging(b, i, pos) =>
      if !CanMerge(c, s, t) then a else
      SegmentPlace(c, b, i, s.sizes[i][b]);
      Moved(a, BinBegin(c, b) + Start(c, i), BinBegin(c, b) + pos, s.sizes[i][b])
    case _ => a
  }

  lemma BinPlace(c: Config, b: nat)
    requires b < c.numBins
    ensures BinBegin(c, b) + Room(c) <= BinBegin(c, c.numBins)
  {
    Next(b, Room(c));
    MulLe(b + 1, c.numBins, Room(c));
  }

  lemma SlotPlace(c: Config, b: nat, t: nat, size: nat)
    requires b < c.numBins && t < c.numThreads && size < c.perThread
    ensures Start(c, t) + size < Room(c) && BinBegin(c, b) + Start(c, t) + size < BinBegin(c, c.numBins)
  {
    hide Start, BinBegin;
    BinPlace(c, b);
    SlotInRange(c, t, size);
  }

  lemma SegmentPlace(c: Config, b: nat, t: nat, size: nat)
    requires b < c.numBins && t < c.numThreads && size <= c.perThread
    ensures Start(c, t) + size <= Room(c) && BinBegin(c, b) + Start(c, t) + size <= BinBegin(c, c.numBins)
  {
    hide Start, BinBegin;
    BinPlace(c, b);
    SlotInRange(c, t, size);
  }

  /** The shared array after the scheduled threads took their steps. */
  ghost function ArrayRun<T>(c: Config, schedule: seq<nat>, before: seq<T>, source: seq<T>): (r: seq<T>)
    requires c.Valid() && |source| == |c.bins| && |before| == BinBegin(c, c.numBins)
    ensures |r| == |before|
  {
    if schedule == [] then before
    else
      var init, t := schedule[..|schedule| - 1], schedule[|schedule| - 1];
      var s, a := Run(c, init), ArrayRun(c, init, before, source);
      if CanStep(c, s, t) then ArrayStep(c, s, a, source, t) else a
  }

  lemma InitMirrors<T>(c: Config, before: seq<T>, source: seq<T>)
    requires c.Valid() && |source| == |c.bins| && |before| == BinBegin(c, c.numBins)
    ensures Mirrors(before, source, before, c, Init(c))
  {
    hide Start, BinBegin;
    forall b, q | 0 <= b < c.numBins && 0 <= q < Room(c)
      ensures SlotMirrored(before, source + before, BinBegin(c, b), Init(c).slots[b], q)
    {
      BinPlace(c, b);
    }
  }

  /** Writing one slot and one entry alike. */
  lemma WriteMirrors<T>(a: seq<T>, full: seq<T>, begin: nat, slots: seq<nat>, k: nat, item: nat, q: nat)
    requires SlotMirrored(a, full, begin, slots, q) && k < |slots| && item < |full| && begin + k < |a|
    ensures SlotMirrored(a[begin + k := full[item]], full, begin, slots[k := item], q)
  {}

  /** Moving a segment of the slots and of the array alike. */
  lemma MoveMirrors<T>(
    a: seq<T>, full: seq<T>, begin: nat, slots: seq<nat>, from: nat, to: nat, size: nat, q: nat)
    requires to <= from && from + size <= |slots| && begin + |slots| <= |a| && q < |slots|
    requires forall r :: 0 <= r < |slots| ==> SlotMirrored(a, full, begin, slots, r)
    ensures SlotMirrored(Moved(a, begin + from, begin + to, size), full, begin, Moved(slots, from, to, size), q)
  {
    MovedAt(slots, from, to, size, q);
    MovedAt(a, begin + from, begin + to, size, begin + q);
    var r := if to <= q < to + size then q + (from - to) else q;
    assert SlotMirrored(a, full, begin, slots, r);
  }

  lemma MovedAt<T>(s: seq<T>, from: nat, to: nat, size: nat, q: nat)
    requires to <= from && from + size <= |s| && q < |s|
    ensures Moved(s, from, to, size)[q] == s[if to <= q < to + size then q + (from - to) else q]
  {}

  /** A step that writes within the room of bin b alone keeps the mirror of the other bins. */
  lemma OtherMirrors<T>(
    c: Config, a: seq<T>, a': seq<T>, full: seq<T>, slots: seq<nat>, b: nat, d: nat, q: nat)
    requires b != d && q < Room(c) && SlotMirrored(a, full, BinBegin(c, d), slots, q)
    requires SameOutside(a, a', BinBegin(c, b), BinBegin(c, b) + Room(c))
    ensures SlotMirrored(a', full, BinBegin(c, d), slots, q)
  {
    hide Room, BinBegin;
    BinsApart(c, b, d);
  }

  lemma MirrorShape<T>(a: seq<T>, source: seq<T>, before: seq<T>, c: Config, s: State, b: nat)
    requires c.Valid() && s.Shape(c) && Mirrors(a, source, before, c, s) && b < c.numBins
    ensures |source| == |c.bins| && |a| == |before| == BinBegin(c, c.numBins)
    ensures |s.slots[b]| == Room(c) && BinBegin(c, b) + Room(c) <= |a|
    ensures forall q :: 0 <= q < Room(c) ==> SlotMirrored(a, source + before, BinBegin(c, b), s.slots[b], q)
  {
    BinPlace(c, b);
  }

  lemma HashMirrors<T>(c: Config, s: State, a: seq<T>, source: seq<T>, before: seq<T>, t: nat)
    requires c.Valid() && s.Shape(c) && t < c.numThreads && CanStep(c, s, t) && Mirrors(a, source, before, c, s)
    requires s.phase[t].Hashing? && s.phase[t].pos != c.Begin(t + 1)
    ensures Step(c, s, t).Shape(c) && Mirrors(ArrayStep(c, s, a, source, t), source, before, c, Step(c, s, t))
  {
    hide Start, BinBegin, Config.Begin, SlotMirrored, CanMerge, CanSolve;
    StepShape(c, s, t);
    var pos: nat := s.phase[t].pos;
    var b := c.bins[pos];
    var k := Start(c, t) + s.sizes[t][b];
    var full, r, a' := source + before, Step(c, s, t), ArrayStep(c, s, a, source, t);
    SlotPlace(c, b, t, s.sizes[t][b]);
    BinPlace(c, b);
    assert a' == a[BinBegin(c, b) + k := full[pos]];
    forall d, q | 0 <= d < c.numBins && 0 <= q < Room(c)
      ensures SlotMirrored(a', full, BinBegin(c, d), r.slots[d], q)
    {
      MirrorShape(a, source, before, c, s, d);
      if d == b {
        WriteMirrors(a, full, BinBegin(c, b), s.slots[b], k, pos, q);
      } else {
        OtherMirrors(c, a, a', full, s.slots[d], b, d, q);
      }
    }
  }

  lemma MergeMirrors<T>(c: Config, s: State, a: seq<T>, source: seq<T>, before: seq<T>, t: nat)
    requires c.Valid() && s.Shape(c) && t < c.numThreads && CanStep(c, s, t) && Mirrors(a, source, before, c, s)
    requires s.phase[t].Merging? && CanMerge(c, s, t)
    ensures Step(c, s, t).Shape(c) && Mirrors(ArrayStep(c, s, a, source, t), source, before, c, Step(c, s, t))
  {
    hide Start, BinBegin, Config.Begin, SlotMirrored, CanHash, CanSolve, Moved;
    StepShape(c, s, t);
    var Merging(b, i, pos) := s.phase[t];
    var size := s.sizes[i][b];
    var full, r, a' := source + before, Step(c, s, t), ArrayStep(c, s, a, source, t);
    SegmentPlace(c, b, i, size);
    MirrorShape(a, source, before, c, s, b);
    MovedOutside(a, BinBegin(c, b), Start(c, i), pos, size, Room(c));
    forall d, q | 0 <= d < c.numBins && 0 <= q < Room(c)
      ensures SlotMirrored(a', full, BinBegin(c, d), r.slots[d], q)
    {
      MirrorShape(a, source, before, c, s, d);
      if d == b {
        MoveMirrors(a, full, BinBegin(c, b), s.slots[b], Start(c, i), pos, size, q);
      } else {
        OtherMirrors(c, a, a', full, s.slots[d], b, d, q);
      }
    }
  }

  lemma MovedOutside<T>(a: seq<T>, begin: nat, from: nat, to: nat, size: nat, room: nat)
    requires to <= from && from + size <= room && begin + room <= |a|
    ensures SameOutside(a, Moved(a, begin + from, begin + to, size), begin, begin + room)
  {}

  /** Every step of every thread keeps the shared array a mirror of the slots. */
  lemma StepMirrors<T>(c: Config, s: State, a: seq<T>, source: seq<T>, before: seq<T>, t: nat)
    requires c.Valid() && s.Shape(c) && CanStep(c, s, t) && Mirrors(a, source, before, c, s)
    ensures Step(c, s, t).Shape(c) && Mirrors(ArrayStep(c, s, a, source, t), source, before, c, Step(c, s, t))
  {
    hide Start, BinBegin, Config.Begin, Mirrors, CanHash, CanMerge, CanSolve, BinSize, Hash, Merge;
    StepShape(c, s, t);
    if s.phase[t].Hashing? && s.phase[t].pos != c.Begin(t + 1) {
      HashMirrors(c, s, a, source, before, t);
    } else if s.phase[t].Merging? && CanMerge(c, s, t) {
      MergeMirrors(c, s, a, source, before, t);
    } else {
      SameSlots(c, s, Step(c, s, t), a, source, before);
    }
  }

  lemma SameSlots<T>(c: Config, s: State, r: State, a: seq<T>, source: seq<T>, before: seq<T>)
    requires c.Valid() && s.Shape(c) && r.Shape(c) && r.slots == s.slots && Mirrors(a, source, before, c, s)
    ensures Mirrors(a, source, before, c, r)
  {
    hide Start, BinBegin, SlotMirrored;
  }

  /** In every reachable state, under every schedule, the shared array mirrors the slots of every bin. */
  lemma {:induction false} RunMirrors<T>(c: Config, schedule: seq<nat>, before: seq<T>, source: seq<T>)
    requires c.Valid() && |source| == |c.bins| && |before| == BinBegin(c, c.numBins)
    ensures Mirrors(ArrayRun(c, schedule, before, source), source, before, c, Run(c, schedule))
  {
    hide Mirrors, CanStep, Step, ArrayStep, BinBegin;
    if schedule == [] {
      InitMirrors(c, before, source);
    } else {
      var init, t := schedule[..|schedule| - 1], schedule[|schedule| - 1];
      RunMirrors(c, init, before, source);
      if CanStep(c, Run(c, init), t) {
        StepMirrors(c, Run(c, init), ArrayRun(c, init, before, source), source, before, t);
      }
    }
  }

  /** Behind the barrier the sizes count the items of every thread and bin. */
  lemma RunSizes(c: Config, schedule: seq<nat>, b: nat)
    requires c.Valid() && NoOverflow(c) && b < c.numBins && Run(c, schedule).released
    ensures SegmentSizes(c, b) == seq(c.numThreads, t requires 0 <= t < c.numThreads => Run(c, schedule).sizes[t][b])
  {
    hide Config.Begin, NoOverflow, Run, Items, BinOk;
    RunKeeps(c, schedule);
    var s := Run(c, schedule);
    forall t | 0 <= t < c.numThreads
      ensures s.sizes[t][b] == |Segment(c, b, t)|
    {
      AllHashed(c, s, t);
      assert ThreadOk(c, s, t);
    }
  }

  /** When a thread takes up a bin, in any run, the shared array holds the segments of all threads. */
  lemma TakenUp<T>(c: Config, schedule: seq<nat>, t: nat, b: nat, before: seq<T>, source: seq<T>)
    requires c.Valid() && NoOverflow(c) && t < c.numThreads && b < c.numBins
    requires |source| == |c.bins| && |before| == BinBegin(c, c.numBins)
    requires Run(c, schedule).phase[t] == Choosing(b)
    ensures Backed(ArrayRun(c, schedule, before, source), source, c, b)
  {
    hide Config.Begin, NoOverflow, Run, ArrayRun, Items, Mirrors, BinBegin, SegmentBacked;
    RunKeeps(c, schedule);
    RunMirrors(c, schedule, before, source);
    var s, a := Run(c, schedule), ArrayRun(c, schedule, before, source);
    PhaseAt(c, s, t);
    NotSolved(c, s, t);
    MirrorShape(a, source, before, c, s, b);
    forall u | 0 <= u < c.numThreads
      ensures SegmentBacked(a, source, c, b, u)
    {
      AllHashed(c, s, u);
      assert BinOk(c, s, b);
      assert SegmentOk(c, s.slots[b], s.sizes[u][b], b, u, c.Begin(u + 1));
      MirroredSegment(a, source, before, c, s, b, u);
    }
  }

  lemma MirroredSegment<T>(a: seq<T>, source: seq<T>, before: seq<T>, c: Config, s: State, b: nat, u: nat)
    requires c.Valid() && s.Shape(c) && b < c.numBins && u < c.numThreads && Mirrors(a, source, before, c, s)
    requires SegmentOk(c, s.slots[b], s.sizes[u][b], b, u, c.Begin(u + 1))
    ensures SegmentBacked(a, source, c, b, u)
  {
    hide Config.Begin, BinBegin, Items, Mirrors;
    MirrorShape(a, source, before, c, s, b);
    MirroredPart(a, source, before, BinBegin(c, b), s.slots[b], Start(c, u), s.sizes[u][b], Segment(c, b, u));
    SegmentEnd(c, BinBegin(c, b), u);
  }

  /** Slots that hold these items mean that the array holds their entries. */
  lemma MirroredPart<T>(
    a: seq<T>, source: seq<T>, before: seq<T>, begin: nat, slots: seq<nat>, from: nat, size: nat, items: seq<nat>)
    requires forall q :: 0 <= q < |slots| ==> SlotMirrored(a, source + before, begin, slots, q)
    requires from + size <= |slots| && begin + |slots| <= |a| && slots[from..from + size] == items
    requires InRange(items, |source|)
    ensures a[begin + from..begin + from + size] == Pick(source, items)
  {
    forall k | 0 <= k < size
      ensures a[begin + from + k] == source[items[k]]
    {
      assert SlotMirrored(a, source + before, begin, slots, from + k);
      assert slots[from..from + size][k] == slots[from + k];
    }
  }

  /** When all segments of a bin are merged, whatever the other threads are doing, its keys stand together in order. */
  lemma MergedUp<T>(c: Config, s: State, a: seq<T>, source: seq<T>, before: seq<T>, t: nat)
    requires c.Valid() && Inv(c, s) && t < c.numThreads && Mirrors(a, source, before, c, s)
    requires s.phase[t].Merging? && s.phase[t].from == c.numThreads
    ensures var Merging(b, _, pos) := s.phase[t];
      && b < c.numBins && BinBegin(c, b) + pos <= |a| && InRange(Items(c.bins, b, 0, |c.bins|), |source|)
      && a[BinBegin(c, b)..BinBegin(c, b) + pos] == Pick(source, Items(c.bins, b, 0, |c.bins|))
  {
    hide Config.Begin, NoOverflow, Items, Mirrors, BinBegin, Start;
    var Merging(b, i, pos) := s.phase[t];
    MergeEnabled(c, s, t);
    Tiles(c, 0);
    MirrorShape(a, source, before, c, s, b);
    ItemsInRange(c.bins, b, 0, |c.bins|);
    MirroredPart(a, source, before, BinBegin(c, b), s.slots[b], 0, pos, Items(c.bins, b, 0, |c.bins|));
  }
}
