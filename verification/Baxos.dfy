/** The binned solver: threads hash the items into bins of their own, meet at a barrier, then merge and solve bins. */
module BaxosSolve {
  import opened Wrappers
  import opened Algebra
  import opened Words
  import opened WeightSets

  /** The bin of every item, the number of threads, and the room for items of one bin: per thread and altogether. */
  datatype Config = Config(bins: seq<nat>, numThreads: nat, numBins: nat, perThread: nat, itemsPerBin: nat) {
    ghost predicate Valid() {
      && numThreads >= 1
      && (forall i :: 0 <= i < |bins| ==> bins[i] < numBins)
    }

    /** The first item of thread t; the item after the last one for t = numThreads. */
    function Begin(t: nat): nat
      requires numThreads >= 1
    {
      |bins| * t / numThreads
    }
  }

  /** The items of bin b in [lo, hi), in input order. */
  ghost function Items(bins: seq<nat>, b: nat, lo: nat, hi: nat): (l: seq<nat>)
    requires lo <= hi <= |bins|
    decreases hi
  {
    if lo == hi then []
    else Items(bins, b, lo, hi - 1) + if bins[hi - 1] == b then [hi - 1] else []
  }

  lemma {:induction false} ItemsSplit(bins: seq<nat>, b: nat, lo: nat, mid: nat, hi: nat)
    requires lo <= mid <= hi <= |bins|
    ensures Items(bins, b, lo, hi) == Items(bins, b, lo, mid) + Items(bins, b, mid, hi)
    decreases hi
  {
    if mid < hi {
      ItemsSplit(bins, b, lo, mid, hi - 1);
      var last: seq<nat> := if bins[hi - 1] == b then [hi - 1] else [];
      assert Items(bins, b, lo, mid) + Items(bins, b, mid, hi - 1) + last ==
        Items(bins, b, lo, mid) + (Items(bins, b, mid, hi - 1) + last);
    }
  }

  lemma {:induction false} ItemsExact(bins: seq<nat>, b: nat, lo: nat, hi: nat)
    requires lo <= hi <= |bins|
    ensures Distinct(Items(bins, b, lo, hi))
    ensures forall i :: i in Items(bins, b, lo, hi) <==> lo <= i < hi && bins[i] == b
    decreases hi
  {
    if lo < hi {
      ItemsExact(bins, b, lo, hi - 1);
    }
  }

  /** The threads' ranges tile the input. */
  lemma Tiles(c: Config, t: nat)
    requires c.Valid() && t < c.numThreads
    ensures c.Begin(0) == 0 && c.Begin(t) <= c.Begin(t + 1) <= c.Begin(c.numThreads) == |c.bins|
  {
    var n, k := |c.bins|, c.numThreads;
    Next(t, n);
    MulLe(t + 1, k, n);
    DivMonotone(n * t, n * (t + 1), k);
    DivMonotone(n * (t + 1), n * k, k);
    DivUnique(n * k, k, n, 0);
    DivUnique(0, k, 0, 0);
  }

  /** Every thread gets its share of the items, rounded down or up. */
  lemma Balanced(c: Config, t: nat)
    requires c.Valid() && t < c.numThreads
    ensures |c.bins| / c.numThreads <= c.Begin(t + 1) - c.Begin(t) <= |c.bins| / c.numThreads + 1
  {
    var n, k := |c.bins|, c.numThreads;
    var q, a, b := n / k, c.Begin(t), c.Begin(t + 1);
    Next(t, n);
    DivMod(n, k);
    DivMod(n * t, k);
    DivMod(n * (t + 1), k);
    Next(q + 1, k);
    Next(b - a, k);
    assert n * (t + 1) == n * t + n;
    assert (b - a) * k == k * b - k * a;
    MulCancel(b - a, q + 2, k);
    MulCancel(q, b - a + 1, k);
  }

  /** What one thread is doing. */
  datatype Phase =
    | Hashing(pos: nat)
    | Waiting
    | Choosing(bin: nat)
    | Merging(bin: nat, from: nat, size: nat)
    | Finished

  /** The threads, the size of every thread's bins, the shared slots of every bin, the barrier, and the solved bins. */
  datatype State = State(
    phase: seq<Phase>, sizes: seq<seq<nat>>, slots: seq<seq<nat>>, arrived: nat, released: bool, failed: bool,
    solved: seq<Option<seq<nat>>>) {
    ghost predicate Shape(c: Config) {
      && |phase| == |sizes| == c.numThreads && |slots| == |solved| == c.numBins
      && (forall t :: 0 <= t < c.numThreads ==> |sizes[t]| == c.numBins)
      && (forall b :: 0 <= b < c.numBins ==> |slots[b]| == Start(c, c.numThreads))
    }
  }

  /** Where thread t's segment of a bin starts. */
  function Start(c: Config, t: nat): nat {
    t * c.perThread
  }

  /** The room of all threads together for one bin. */
  function Room(c: Config): nat {
    Start(c, c.numThreads)
  }

  /** Where bin b begins in the shared arrays. */
  function BinBegin(c: Config, b: nat): nat {
    Room(c) * b
  }

  /** The segment moved down to `to`; what lies outside the destination stays. */
  function Moved<T>(s: seq<T>, from: nat, to: nat, size: nat): (r: seq<T>)
    requires to <= from && from + size <= |s|
    ensures |r| == |s|
  {
    s[..to] + s[from..from + size] + s[to + size..]
  }

  /** No thread meets more items of one bin than it has room for. */
  ghost predicate NoOverflow(c: Config)
    requires c.Valid()
  {
    forall t, b :: 0 <= t < c.numThreads && 0 <= b < c.numBins ==> SegmentFits(c, t, b)
  }

  ghost predicate SegmentFits(c: Config, t: nat, b: nat)
    requires c.Valid() && t < c.numThreads
  {
    c.Begin(t) <= c.Begin(t + 1) <= |c.bins| && |Items(c.bins, b, c.Begin(t), c.Begin(t + 1))| <= c.perThread
  }

  /** At first no item is hashed. A slot that was never written holds its own place, counted on from the last item. */
  ghost function Init(c: Config): (s: State)
    requires c.Valid()
  {
    State(seq(c.numThreads, t requires 0 <= t < c.numThreads => Hashing(c.Begin(t))),
          seq(c.numThreads, _ => seq(c.numBins, _ => 0)),
          seq(c.numBins, b requires 0 <= b < c.numBins => Unwritten(c, b)),
          0, false, false, seq(c.numBins, _ => None))
  }

  ghost function Unwritten(c: Config, b: nat): (slots: seq<nat>)
    ensures |slots| == Room(c)
  {
    seq(Room(c), q requires 0 <= q < Room(c) => UnwrittenAt(c, b, q))
  }

  ghost function UnwrittenAt(c: Config, b: nat, q: nat): nat {
    |c.bins| + BinBegin(c, b) + q
  }

  /** The size of bin b over the first k threads. */
  ghost function BinSize(sizes: seq<seq<nat>>, b: nat, k: nat): nat
    requires k <= |sizes| && forall t :: 0 <= t < |sizes| ==> b < |sizes[t]|
  {
    if k == 0 then 0 else BinSize(sizes, b, k - 1) + sizes[k - 1][b]
  }

  // The steps of a thread.

  ghost predicate CanHash(c: Config, s: State, t: nat)
    requires c.Valid() && s.Shape(c) && t < c.numThreads
  {
    && s.phase[t].Hashing? && s.phase[t].pos < c.Begin(t + 1) && s.phase[t].pos < |c.bins|
    && s.sizes[t][c.bins[s.phase[t].pos]] < c.perThread
  }

  /** Puts the next item into its bin. */
  ghost function Hash(c: Config, s: State, t: nat): (r: State)
    requires c.Valid() && s.Shape(c) && t < c.numThreads && CanHash(c, s, t)
  {
    var pos: nat := s.phase[t].pos;
    var b := c.bins[pos];
    var size := s.sizes[t][b];
    SlotInRange(c, t, size);
    var slots: seq<nat> := s.slots[b][Start(c, t) + size := pos];
    s.(phase := s.phase[t := Hashing(pos + 1)],
       sizes := s.sizes[t := s.sizes[t][b := size + 1]],
       slots := s.slots[b := slots])
  }

  lemma SlotInRange(c: Config, t: nat, size: nat)
    requires t < c.numThreads && size <= c.perThread
    ensures Start(c, t) + size <= Start(c, t + 1) <= Start(c, c.numThreads) && Start(c, 0) == 0
    ensures size < c.perThread ==> Start(c, t) + size < Start(c, c.numThreads)
  {
    MulLe(t + 1, c.numThreads, c.perThread);
    Next(t, c.perThread);
  }

  /** Reports that the thread has hashed its items; the last thread to do so opens the barrier and goes on. */
  ghost function Arrive(c: Config, s: State, t: nat): (r: State)
    requires c.Valid() && s.Shape(c) && t < c.numThreads
  {
    var last := s.arrived + 1 == c.numThreads;
    s.(phase := s.phase[t := if last then Choosing(t) else Waiting],
       arrived := s.arrived + 1, released := s.released || last)
  }

  /** Takes up the next bin of the thread, or stops after the last one; too full a bin is the throw of the source. */
  ghost function Choose(c: Config, s: State, t: nat): (r: State)
    requires c.Valid() && s.Shape(c) && t < c.numThreads && s.phase[t].Choosing?
  {
    var b := s.phase[t].bin;
    if b >= c.numBins then s.(phase := s.phase[t := Finished])
    else if BinSize(s.sizes, b, c.numThreads) > c.itemsPerBin then s.(failed := true)
    else s.(phase := s.phase[t := Merging(b, 1, s.sizes[0][b])])
  }

  ghost predicate CanMerge(c: Config, s: State, t: nat)
    requires c.Valid() && s.Shape(c) && t < c.numThreads
  {
    s.phase[t].Merging? &&
    var Merging(b, i, pos) := s.phase[t];
    b < c.numBins && i < c.numThreads && pos <= Start(c, i) && s.sizes[i][b] <= c.perThread
  }

  /** Moves one thread's segment of the bin down to the end of the merged ones. */
  ghost function Merge(c: Config, s: State, t: nat): (r: State)
    requires c.Valid() && s.Shape(c) && t < c.numThreads && CanMerge(c, s, t)
  {
    var Merging(b, i, pos) := s.phase[t];
    SlotInRange(c, i, s.sizes[i][b]);
    s.(phase := s.phase[t := Merging(b, i + 1, pos + s.sizes[i][b])],
       slots := s.slots[b := Moved(s.slots[b], Start(c, i), pos, s.sizes[i][b])])
  }

  ghost predicate CanSolve(c: Config, s: State, t: nat)
    requires c.Valid() && s.Shape(c) && t < c.numThreads
  {
    s.phase[t].Merging? &&
    var Merging(b, i, pos) := s.phase[t];
    b < c.numBins && i == c.numThreads && pos <= |s.slots[b]|
  }

  /** Hands the merged bin to its solver and goes on to the next bin of the thread. */
  ghost function Solve(c: Config, s: State, t: nat): (r: State)
    requires c.Valid() && s.Shape(c) && t < c.numThreads && CanSolve(c, s, t)
  {
    var Merging(b, i, pos) := s.phase[t];
    s.(phase := s.phase[t := Choosing(b + c.numThreads)], solved := s.solved[b := Some(s.slots[b][..pos])])
  }

  ghost predicate CanStep(c: Config, s: State, t: nat)
    requires c.Valid() && s.Shape(c)
  {
    t < c.numThreads && !s.failed &&
    match s.phase[t]
    case Hashing(pos) => pos == c.Begin(t + 1) || CanHash(c, s, t)
    case Waiting => s.released
    case Choosing(_) => true
    case Merging(_, _, _) => CanMerge(c, s, t) || CanSolve(c, s, t)
    case Finished => false
  }

  ghost function Step(c: Config, s: State, t: nat): (r: State)
    requires c.Valid() && s.Shape(c) && CanStep(c, s, t)
  {
    match s.phase[t]
    case Hashing(pos) => if pos == c.Begin(t + 1) then Arrive(c, s, t) else Hash(c, s, t)
    case Waiting => s.(phase := s.phase[t := Choosing(t)])
    case Choosing(_) => Choose(c, s, t)
    case Merging(_, _, _) => if CanMerge(c, s, t) then Merge(c, s, t) else Solve(c, s, t)
  }

  lemma StepShape(c: Config, s: State, t: nat)
    requires c.Valid() && s.Shape(c) && CanStep(c, s, t)
    ensures Step(c, s, t).Shape(c)
  {
    hide Start, Config.Begin, BinSize, CanHash, CanMerge, Hash, Merge;
    if s.phase[t].Hashing? {
      if s.phase[t].pos != c.Begin(t + 1) {
        HashShape(c, s, t);
      }
    } else if CanMerge(c, s, t) {
      MergeShape(c, s, t);
    }
  }

  lemma HashShape(c: Config, s: State, t: nat)
    requires c.Valid() && s.Shape(c) && t < c.numThreads && CanHash(c, s, t)
    ensures Hash(c, s, t).Shape(c)
  {
    hide Start, Config.Begin;
    SlotInRange(c, t, s.sizes[t][c.bins[s.phase[t].pos]]);
  }

  lemma MergeShape(c: Config, s: State, t: nat)
    requires c.Valid() && s.Shape(c) && t < c.numThreads && CanMerge(c, s, t)
    ensures Merge(c, s, t).Shape(c)
  {
    hide Start, Config.Begin, Moved;
  }

  /** The state after the scheduled threads took their steps; a thread that cannot step is passed over. */
  ghost function Run(c: Config, schedule: seq<nat>): (s: State)
    requires c.Valid()
    ensures s.Shape(c)
  {
    if schedule == [] then Init(c)
    else
      var s := Run(c, schedule[..|schedule| - 1]);
      var t := schedule[|schedule| - 1];
      if CanStep(c, s, t) then
        StepShape(c, s, t);
        Step(c, s, t)
      else s
  }

  // What every step keeps.

  /** The first item that thread t has not hashed yet. */
  ghost function HashedTo(c: Config, ph: Phase, t: nat): nat
    requires c.numThreads >= 1
  {
    if ph.Hashing? then ph.pos else c.Begin(t + 1)
  }

  /** The phase of thread t is in order. */
  ghost predicate PhaseOk(c: Config, ph: Phase, released: bool, t: nat)
    requires c.Valid() && t < c.numThreads
  {
    && c.Begin(t) <= HashedTo(c, ph, t) <= c.Begin(t + 1) <= |c.bins|
    && match ph
      case Hashing(_) => true
      case Waiting => true
      case Choosing(b) => released && b % c.numThreads == t
      case Merging(b, i, pos) =>
        released && b < c.numBins && b % c.numThreads == t && 1 <= i <= c.numThreads && MergedOk(c, b, i, pos)
      case Finished => released
  }

  ghost predicate MergedOk(c: Config, b: nat, i: nat, pos: nat)
    requires c.Valid()
  {
    c.Begin(i) <= |c.bins| && pos == |Items(c.bins, b, 0, c.Begin(i))| &&
      |Items(c.bins, b, 0, |c.bins|)| <= c.itemsPerBin
  }

  /** The bin sizes of thread t count its hashed items. */
  ghost predicate SizesOk(c: Config, sizes: seq<nat>, lo: nat, hi: nat) {
    lo <= hi <= |c.bins| && forall b :: 0 <= b < |sizes| ==> sizes[b] == |Items(c.bins, b, lo, hi)|
  }

  /** The next bin that a thread in this phase has to solve. */
  ghost function NextBin(c: Config, ph: Phase, t: nat): nat {
    match ph
    case Hashing(_) => t
    case Waiting => t
    case Choosing(b) => b
    case Merging(b, _, _) => b
    case Finished => c.numBins
  }

  /** Of the bins of thread t, exactly those before its next one are solved. */
  ghost predicate TurnOk(c: Config, ph: Phase, solved: seq<Option<seq<nat>>>, t: nat)
    requires c.numThreads >= 1
  {
    forall b :: 0 <= b < |solved| && b % c.numThreads == t ==> (solved[b].Some? <==> b < NextBin(c, ph, t))
  }

  ghost predicate ThreadOk(c: Config, s: State, t: nat)
    requires c.Valid() && s.Shape(c) && t < c.numThreads
  {
    && PhaseOk(c, s.phase[t], s.released, t)
    && SizesOk(c, s.sizes[t], c.Begin(t), HashedTo(c, s.phase[t], t))
    && TurnOk(c, s.phase[t], s.solved, t)
  }

  /** Thread t's segment of bin b holds the items it hashed, in order. */
  ghost predicate SegmentOk(c: Config, slots: seq<nat>, size: nat, b: nat, t: nat, hi: nat)
    requires c.Valid()
  {
    && c.Begin(t) <= hi <= |c.bins| && size <= c.perThread && Start(c, t) + size <= |slots|
    && slots[Start(c, t)..Start(c, t) + size] == Items(c.bins, b, c.Begin(t), hi)
  }

  /** How many segments of bin b are merged. */
  ghost function MergedTo(ph: Phase, b: nat): nat {
    if ph.Merging? && ph.bin == b then ph.from else 0
  }

  /** A solved bin got all its items; the slots of an unsolved one hold what is merged and the segments that are not. */
  ghost predicate BinOk(c: Config, s: State, b: nat)
    requires c.Valid() && s.Shape(c) && b < c.numBins
  {
    var ph := s.phase[b % c.numThreads];
    if s.solved[b].Some? then
      s.solved[b].value == Items(c.bins, b, 0, |c.bins|) && |s.solved[b].value| <= c.itemsPerBin
    else
      && (MergedTo(ph, b) > 0 ==> PrefixOk(c, s.slots[b], b, ph.from, ph.size))
      && forall t :: MergedTo(ph, b) <= t < c.numThreads ==>
        SegmentOk(c, s.slots[b], s.sizes[t][b], b, t, HashedTo(c, s.phase[t], t))
  }

  ghost predicate PrefixOk(c: Config, slots: seq<nat>, b: nat, i: nat, pos: nat)
    requires c.Valid()
  {
    c.Begin(i) <= |c.bins| && pos <= |slots| && slots[..pos] == Items(c.bins, b, 0, c.Begin(i))
  }

  ghost function Arrived(phase: seq<Phase>): set<nat> {
    set t: nat | t < |phase| && !phase[t].Hashing?
  }

  ghost predicate BarrierOk(c: Config, s: State) {
    s.arrived == |Arrived(s.phase)| && (s.released <==> s.arrived == c.numThreads)
  }

  ghost predicate Inv(c: Config, s: State)
    requires c.Valid()
  {
    && s.Shape(c) && NoOverflow(c) && BarrierOk(c, s)
    && (forall t :: 0 <= t < c.numThreads ==> ThreadOk(c, s, t))
    && (forall b :: 0 <= b < c.numBins ==> BinOk(c, s, b))
    && (s.failed ==> exists b :: 0 <= b < c.numBins && TooFull(c, b))
  }

  ghost predicate TooFull(c: Config, b: nat) {
    |Items(c.bins, b, 0, |c.bins|)| > c.itemsPerBin
  }

  lemma SmallerSet<T>(a: set<T>, b: set<T>)
    requires a <= b
    ensures |a| <= |b| && (|a| == |b| ==> a == b)
  {
    assert b == a + (b - a);
  }

  /** The barrier is open only when no thread is hashing any more. */
  lemma BarrierHolds(c: Config, s: State, t: nat)
    requires c.Valid() && s.Shape(c) && BarrierOk(c, s) && t < c.numThreads
    ensures s.released ==> !s.phase[t].Hashing?
    ensures s.phase[t].Hashing? ==> s.arrived < c.numThreads
  {
    SmallerSet(Arrived(s.phase), Below(c.numThreads));
    assert t in Below(c.numThreads);
  }

  lemma ArrivedSame(c: Config, s: State, r: State, t: nat)
    requires c.Valid() && s.Shape(c) && BarrierOk(c, s) && t < c.numThreads
    requires |r.phase| == |s.phase| && r.phase == s.phase[t := r.phase[t]]
    requires r.phase[t].Hashing? == s.phase[t].Hashing? && r.arrived == s.arrived && r.released == s.released
    ensures BarrierOk(c, r)
  {
    assert Arrived(r.phase) == Arrived(s.phase);
  }

  lemma ItemsNext(bins: seq<nat>, b: nat, lo: nat, pos: nat)
    requires lo <= pos < |bins|
    ensures Items(bins, b, lo, pos + 1) == Items(bins, b, lo, pos) + if bins[pos] == b then [pos] else []
  {}

  /** No segment outgrows its room. */
  lemma SegmentRoom(c: Config, b: nat, t: nat, hi: nat)
    requires c.Valid() && t < c.numThreads && b < c.numBins && NoOverflow(c) &&
      c.Begin(t) <= hi <= c.Begin(t + 1) <= |c.bins|
    ensures |Items(c.bins, b, c.Begin(t), hi)| <= c.perThread
    ensures hi < c.Begin(t + 1) && c.bins[hi] == b ==> |Items(c.bins, b, c.Begin(t), hi)| < c.perThread
  {
    assert SegmentFits(c, t, b);
    ItemsSplit(c.bins, b, c.Begin(t), hi, c.Begin(t + 1));
    if hi < c.Begin(t + 1) {
      ItemsSplit(c.bins, b, hi, hi + 1, c.Begin(t + 1));
      ItemsNext(c.bins, b, hi, hi);
    }
  }

  lemma OwnBins(threads: nat, b: nat)
    requires threads > 0
    ensures b >= b % threads
  {
    DivMod(b, threads);
  }

  lemma InitThread(c: Config, t: nat)
    requires c.Valid() && t < c.numThreads
    ensures ThreadOk(c, Init(c), t)
  {
    hide Start, Config.Begin;
    Tiles(c, t);
    forall b: nat | b < c.numBins && b % c.numThreads == t
      ensures b >= t
    {
      OwnBins(c.numThreads, b);
    }
  }

  lemma InitBin(c: Config, b: nat)
    requires c.Valid() && b < c.numBins
    ensures BinOk(c, Init(c), b)
  {
    hide Start, Config.Begin;
    var s := Init(c);
    forall t | 0 <= t < c.numThreads
      ensures SegmentOk(c, s.slots[b], s.sizes[t][b], b, t, HashedTo(c, s.phase[t], t))
    {
      Tiles(c, t);
      SlotInRange(c, t, 0);
    }
  }

  lemma InitInv(c: Config)
    requires c.Valid() && NoOverflow(c)
    ensures Inv(c, Init(c))
  {
    hide BinOk, ThreadOk, Start, Config.Begin, NoOverflow;
    var s := Init(c);
    assert Arrived(s.phase) == {};
    forall t | 0 <= t < c.numThreads
      ensures ThreadOk(c, s, t)
    {
      InitThread(c, t);
    }
    forall b | 0 <= b < c.numBins
      ensures BinOk(c, s, b)
    {
      InitBin(c, b);
    }
  }

  /** Writing one slot behind thread t's segment of bin b extends that segment and no other. */
  lemma SegmentWrite(c: Config, slots: seq<nat>, size: nat, b: nat, t: nat, pos: nat, u: nat, sizeU: nat, hiU: nat)
    requires c.Valid() && t < c.numThreads && u < c.numThreads && |slots| == Start(c, c.numThreads)
    requires SegmentOk(c, slots, size, b, t, pos) && pos < |c.bins| && c.bins[pos] == b && size < c.perThread
    requires SegmentOk(c, slots, sizeU, b, u, hiU)
    ensures Start(c, t) + size < |slots|
    ensures u == t ==> SegmentOk(c, slots[Start(c, t) + size := pos], size + 1, b, t, pos + 1)
    ensures u != t ==> SegmentOk(c, slots[Start(c, t) + size := pos], sizeU, b, u, hiU)
  {
    hide Start;
    SlotInRange(c, t, size);
    SlotInRange(c, u, sizeU);
    SegmentsApart(c, u, t);
    SegmentsApart(c, t, u);
    ItemsNext(c.bins, b, c.Begin(t), pos);
    var next := slots[Start(c, t) + size := pos];
    if u == t {
      assert next[Start(c, t)..Start(c, t) + size + 1] == slots[Start(c, t)..Start(c, t) + size] + [pos];
    } else {
      assert next[Start(c, u)..Start(c, u) + sizeU] == slots[Start(c, u)..Start(c, u) + sizeU];
    }
  }

  lemma SegmentsApart(c: Config, u: nat, t: nat)
    ensures u < t ==> Start(c, u) + c.perThread <= Start(c, t)
  {
    if u < t {
      MulLe(u + 1, t, c.perThread);
      Next(u, c.perThread);
    }
  }

  /** Hashing keeps the segments of every bin. */
  lemma HashSegment(c: Config, s: State, t: nat, b: nat, u: nat)
    requires c.Valid() && s.Shape(c) && t < c.numThreads && u < c.numThreads && b < c.numBins && CanHash(c, s, t)
    requires SegmentOk(c, s.slots[b], s.sizes[u][b], b, u, HashedTo(c, s.phase[u], u))
    requires SegmentOk(c, s.slots[b], s.sizes[t][b], b, t, s.phase[t].pos)
    ensures Hash(c, s, t).Shape(c)
    ensures var r := Hash(c, s, t); SegmentOk(c, r.slots[b], r.sizes[u][b], b, u, HashedTo(c, r.phase[u], u))
  {
    hide Start, Config.Begin, Items;
    HashShape(c, s, t);
    var pos: nat := s.phase[t].pos;
    if b == c.bins[pos] {
      SegmentWrite(c, s.slots[b], s.sizes[t][b], b, t, pos, u, s.sizes[u][b], HashedTo(c, s.phase[u], u));
    } else if u == t {
      ItemsNext(c.bins, b, c.Begin(t), pos);
    }
  }

  lemma NothingMerged(c: Config, s: State, b: nat)
    requires c.Valid() && s.Shape(c) && b < c.numBins && !s.released
    requires ThreadOk(c, s, b % c.numThreads)
    ensures MergedTo(s.phase[b % c.numThreads], b) == 0
  {}

  lemma HashBin(c: Config, s: State, t: nat, b: nat)
    requires c.Valid() && s.Shape(c) && t < c.numThreads && CanHash(c, s, t) && b < c.numBins && !s.released
    requires BinOk(c, s, b) && ThreadOk(c, s, b % c.numThreads)
    ensures Hash(c, s, t).Shape(c) && BinOk(c, Hash(c, s, t), b)
  {
    hide Start, Config.Begin, Items, SegmentOk, ThreadOk;
    HashShape(c, s, t);
    var r := Hash(c, s, t);
    NothingMerged(c, s, b);
    if s.solved[b].None? {
      forall u | 0 <= u < c.numThreads
        ensures SegmentOk(c, r.slots[b], r.sizes[u][b], b, u, HashedTo(c, r.phase[u], u))
      {
        HashSegment(c, s, t, b, u);
      }
    }
  }

  lemma HashThread(c: Config, s: State, t: nat, u: nat)
    requires c.Valid() && s.Shape(c) && t < c.numThreads && CanHash(c, s, t) && u < c.numThreads && ThreadOk(c, s, u)
    ensures Hash(c, s, t).Shape(c) && ThreadOk(c, Hash(c, s, t), u)
  {
    hide Start, Config.Begin;
    HashShape(c, s, t);
  }

  lemma HashKeeps(c: Config, s: State, t: nat)
    requires c.Valid() && Inv(c, s) && t < c.numThreads && CanHash(c, s, t)
    ensures Hash(c, s, t).Shape(c) && Inv(c, Hash(c, s, t))
  {
    hide BinOk, ThreadOk, Start, NoOverflow, Config.Begin;
    HashShape(c, s, t);
    var r := Hash(c, s, t);
    ArrivedSame(c, s, r, t);
    BarrierHolds(c, s, t);
    forall b | 0 <= b < c.numBins
      ensures BinOk(c, r, b)
    {
      HashBin(c, s, t, b);
    }
    forall u | 0 <= u < c.numThreads
      ensures ThreadOk(c, r, u)
    {
      HashThread(c, s, t, u);
    }
  }

  lemma PhaseAt(c: Config, s: State, t: nat)
    requires c.Valid() && Inv(c, s) && t < c.numThreads
    ensures ThreadOk(c, s, t) && PhaseOk(c, s.phase[t], s.released, t)
  {
    hide BinOk, Start, NoOverflow, Config.Begin;
  }

  /** A step that leaves the slots, the sizes and the hashed items alone keeps every bin that it does not take up. */
  lemma OtherBin(c: Config, s: State, r: State, t: nat, b: nat)
    requires c.Valid() && s.Shape(c) && r.Shape(c) && t < c.numThreads && b < c.numBins && BinOk(c, s, b)
    requires r.sizes == s.sizes && r.slots[b] == s.slots[b] && r.solved[b] == s.solved[b]
    requires r.phase == s.phase[t := r.phase[t]] && HashedTo(c, r.phase[t], t) == HashedTo(c, s.phase[t], t)
    requires b % c.numThreads == t ==> r.solved[b].Some? || MergedTo(r.phase[t], b) == MergedTo(s.phase[t], b) == 0
    ensures BinOk(c, r, b)
  {
    hide Start, Config.Begin, Items, SegmentOk;
    if s.solved[b].None? {
      forall u | MergedTo(s.phase[b % c.numThreads], b) <= u < c.numThreads
        ensures SegmentOk(c, r.slots[b], r.sizes[u][b], b, u, HashedTo(c, r.phase[u], u))
      {
        assert SegmentOk(c, s.slots[b], s.sizes[u][b], b, u, HashedTo(c, s.phase[u], u));
      }
    }
  }

  /** A step of thread t that solves no bin of another thread keeps the other threads in order. */
  lemma OtherThread(c: Config, s: State, r: State, t: nat, u: nat)
    requires c.Valid() && s.Shape(c) && r.Shape(c) && t < c.numThreads && u < c.numThreads && u != t
    requires ThreadOk(c, s, u) && r.phase == s.phase[t := r.phase[t]] && r.sizes[u] == s.sizes[u]
    requires s.released ==> r.released
    requires forall b :: 0 <= b < c.numBins && b % c.numThreads != t ==> r.solved[b] == s.solved[b]
    ensures ThreadOk(c, r, u)
  {
    hide Start, Config.Begin, Items, MergedOk;
  }

  lemma ArriveBarrier(c: Config, s: State, t: nat)
    requires c.Valid() && s.Shape(c) && BarrierOk(c, s) && t < c.numThreads && s.phase[t].Hashing?
    ensures BarrierOk(c, Arrive(c, s, t))
  {
    var r := Arrive(c, s, t);
    assert Arrived(r.phase) == Arrived(s.phase) + {t};
    BarrierHolds(c, s, t);
  }

  lemma ArriveKeeps(c: Config, s: State, t: nat)
    requires c.Valid() && Inv(c, s) && t < c.numThreads && s.phase[t].Hashing? && s.phase[t].pos == c.Begin(t + 1)
    ensures Arrive(c, s, t).Shape(c) && Inv(c, Arrive(c, s, t))
  {
    hide BinOk, ThreadOk, Start, NoOverflow, Config.Begin, Arrived;
    var r := Arrive(c, s, t);
    ArriveBarrier(c, s, t);
    BarrierHolds(c, s, t);
    forall b | 0 <= b < c.numBins
      ensures BinOk(c, r, b)
    {
      OtherBin(c, s, r, t, b);
    }
    forall u | 0 <= u < c.numThreads
      ensures ThreadOk(c, r, u)
    {
      if u != t {
        OtherThread(c, s, r, t, u);
      } else {
        ArriveThread(c, s, t);
      }
    }
  }

  lemma ArriveThread(c: Config, s: State, t: nat)
    requires c.Valid() && s.Shape(c) && t < c.numThreads && ThreadOk(c, s, t)
    requires s.phase[t].Hashing? && s.phase[t].pos == c.Begin(t + 1)
    ensures Arrive(c, s, t).Shape(c) && ThreadOk(c, Arrive(c, s, t), t)
  {
    hide Start, Config.Begin;
    SmallMod(t, c.numThreads);
  }

  /** Leaving the barrier, and taking up the next bin. */
  lemma ResumeKeeps(c: Config, s: State, t: nat)
    requires c.Valid() && Inv(c, s) && t < c.numThreads && s.phase[t].Waiting? && s.released
    ensures var r := s.(phase := s.phase[t := Choosing(t)]); r.Shape(c) && Inv(c, r)
  {
    hide BinOk, ThreadOk, Start, NoOverflow, Config.Begin, Arrived;
    var r := s.(phase := s.phase[t := Choosing(t)]);
    ArrivedSame(c, s, r, t);
    forall b | 0 <= b < c.numBins
      ensures BinOk(c, r, b)
    {
      OtherBin(c, s, r, t, b);
    }
    forall u | 0 <= u < c.numThreads
      ensures ThreadOk(c, r, u)
    {
      if u != t {
        OtherThread(c, s, r, t, u);
      } else {
        ResumeThread(c, s, t);
      }
    }
  }

  lemma ResumeThread(c: Config, s: State, t: nat)
    requires c.Valid() && s.Shape(c) && t < c.numThreads && ThreadOk(c, s, t) && s.phase[t].Waiting? && s.released
    ensures var r := s.(phase := s.phase[t := Choosing(t)]); r.Shape(c) && ThreadOk(c, r, t)
  {
    hide Start, Config.Begin;
    SmallMod(t, c.numThreads);
  }

  /** The sizes of a bin over the first k threads add up to the number of its items among theirs. */
  lemma {:induction false} BinSizeCounts(c: Config, s: State, b: nat, k: nat)
    requires c.Valid() && s.Shape(c) && b < c.numBins && k <= c.numThreads
    requires forall t :: 0 <= t < c.numThreads ==> ThreadOk(c, s, t) && !s.phase[t].Hashing?
    ensures c.Begin(k) <= |c.bins|
    ensures BinSize(s.sizes, b, k) == |Items(c.bins, b, 0, c.Begin(k))|
  {
    hide Start, Config.Begin;
    Tiles(c, 0);
    if k > 0 {
      BinSizeCounts(c, s, b, k - 1);
      Tiles(c, k - 1);
      assert ThreadOk(c, s, k - 1);
      ItemsSplit(c.bins, b, 0, c.Begin(k - 1), c.Begin(k));
    }
  }

  lemma AllHashed(c: Config, s: State, t: nat)
    requires c.Valid() && Inv(c, s) && t < c.numThreads && s.released
    ensures !s.phase[t].Hashing? && HashedTo(c, s.phase[t], t) == c.Begin(t + 1)
  {
    hide BinOk, ThreadOk, Start, NoOverflow, Config.Begin;
    BarrierHolds(c, s, t);
  }

  /** The segment of the first thread is merged where it stands. */
  lemma FirstMerged(c: Config, s: State, b: nat)
    requires c.Valid() && Inv(c, s) && b < c.numBins && s.released
    requires s.solved[b].None? && MergedTo(s.phase[b % c.numThreads], b) == 0
    ensures PrefixOk(c, s.slots[b], b, 1, s.sizes[0][b])
    ensures c.Begin(1) <= |c.bins| && s.sizes[0][b] == |Items(c.bins, b, 0, c.Begin(1))|
  {
    hide Config.Begin, NoOverflow, Items;
    assert BinOk(c, s, b);
    AllHashed(c, s, 0);
    Tiles(c, 0);
    assert SegmentOk(c, s.slots[b], s.sizes[0][b], b, 0, c.Begin(1));
    assert Start(c, 0) == 0;
    assert ThreadOk(c, s, 0);
  }

  lemma ChooseKeeps(c: Config, s: State, t: nat)
    requires c.Valid() && Inv(c, s) && t < c.numThreads && s.phase[t].Choosing?
    ensures Choose(c, s, t).Shape(c) && Inv(c, Choose(c, s, t))
  {
    hide BinOk, ThreadOk, Start, NoOverflow, Config.Begin, Arrived, PrefixOk, MergedOk;
    var r := Choose(c, s, t);
    var next: nat := s.phase[t].bin;
    PhaseAt(c, s, t);
    assert s.released && next % c.numThreads == t;
    if next < c.numBins {
      BinTotal(c, s, next);
    }
    if r.phase != s.phase {
      ArrivedSame(c, s, r, t);
    } else {
      assert TooFull(c, next);
    }
    assert r.failed ==> exists b :: 0 <= b < c.numBins && TooFull(c, b);
    forall b | 0 <= b < c.numBins
      ensures BinOk(c, r, b)
    {
      if r.phase == s.phase {
        SameBin(c, s, r, b);
      } else {
        ChooseBin(c, s, t, b);
      }
    }
    forall u | 0 <= u < c.numThreads
      ensures ThreadOk(c, r, u)
    {
      if r.phase == s.phase {
        SameThread(c, s, r, u);
      } else if u != t {
        OtherThread(c, s, r, t, u);
      } else {
        ChooseThread(c, s, t);
      }
    }
  }

  lemma SameBin(c: Config, s: State, r: State, b: nat)
    requires c.Valid() && s.Shape(c) && b < c.numBins && BinOk(c, s, b) && r == s.(failed := true)
    ensures r.Shape(c) && BinOk(c, r, b)
  {
    hide Start, Config.Begin, SegmentOk;
    if s.solved[b].None? {
      forall u | MergedTo(s.phase[b % c.numThreads], b) <= u < c.numThreads
        ensures SegmentOk(c, r.slots[b], r.sizes[u][b], b, u, HashedTo(c, r.phase[u], u))
      {
        assert SegmentOk(c, s.slots[b], s.sizes[u][b], b, u, HashedTo(c, s.phase[u], u));
      }
    }
  }

  lemma SameThread(c: Config, s: State, r: State, u: nat)
    requires c.Valid() && s.Shape(c) && u < c.numThreads && ThreadOk(c, s, u) && r == s.(failed := true)
    ensures r.Shape(c) && ThreadOk(c, r, u)
  {
    hide Start, Config.Begin;
  }

  lemma BinTotal(c: Config, s: State, b: nat)
    requires c.Valid() && Inv(c, s) && b < c.numBins && s.released
    ensures BinSize(s.sizes, b, c.numThreads) == |Items(c.bins, b, 0, |c.bins|)|
  {
    hide BinOk, Start, NoOverflow, Config.Begin;
    forall t | 0 <= t < c.numThreads
      ensures ThreadOk(c, s, t) && !s.phase[t].Hashing?
    {
      AllHashed(c, s, t);
    }
    BinSizeCounts(c, s, b, c.numThreads);
    Tiles(c, 0);
  }

  /** A thread about to choose a bin has not solved it. */
  lemma NotSolved(c: Config, s: State, t: nat)
    requires c.Valid() && Inv(c, s) && t < c.numThreads && (s.phase[t].Choosing? || s.phase[t].Merging?)
    requires s.phase[t].bin < c.numBins
    ensures s.released && s.phase[t].bin % c.numThreads == t && s.solved[s.phase[t].bin].None?
  {
    hide BinOk, Start, NoOverflow, Config.Begin;
    assert ThreadOk(c, s, t);
  }

  lemma ChooseBin(c: Config, s: State, t: nat, b: nat)
    requires c.Valid() && Inv(c, s) && t < c.numThreads && s.phase[t].Choosing? && b < c.numBins
    requires Choose(c, s, t).phase != s.phase
    ensures Choose(c, s, t).Shape(c) && BinOk(c, Choose(c, s, t), b)
  {
    hide Start, NoOverflow, Config.Begin, Arrived, PrefixOk, SegmentOk, ThreadOk;
    var r := Choose(c, s, t);
    var next: nat := s.phase[t].bin;
    PhaseAt(c, s, t);
    if b == next {
      NotSolved(c, s, t);
      FirstMerged(c, s, b);
      forall u | 1 <= u < c.numThreads
        ensures SegmentOk(c, r.slots[b], r.sizes[u][b], b, u, HashedTo(c, r.phase[u], u))
      {
        assert BinOk(c, s, b);
        assert SegmentOk(c, s.slots[b], s.sizes[u][b], b, u, HashedTo(c, s.phase[u], u));
      }
    } else {
      OtherBin(c, s, r, t, b);
    }
  }

  lemma ChooseThread(c: Config, s: State, t: nat)
    requires c.Valid() && Inv(c, s) && t < c.numThreads && s.phase[t].Choosing?
    requires Choose(c, s, t).phase != s.phase
    ensures Choose(c, s, t).Shape(c) && ThreadOk(c, Choose(c, s, t), t)
  {
    hide Start, NoOverflow, Config.Begin, Arrived, BinOk, Items;
    var next: nat := s.phase[t].bin;
    PhaseAt(c, s, t);
    if next < c.numBins {
      NotSolved(c, s, t);
      BinTotal(c, s, next);
      Tiles(c, 0);
      assert ThreadOk(c, s, 0);
      AllHashed(c, s, 0);
    }
  }

  /** The items of the first i threads fit before the segment of thread i. */
  lemma {:induction false} PrefixRoom(c: Config, b: nat, i: nat)
    requires c.Valid() && NoOverflow(c) && b < c.numBins && i <= c.numThreads
    ensures c.Begin(i) <= |c.bins| && |Items(c.bins, b, 0, c.Begin(i))| <= Start(c, i)
  {
    hide Config.Begin;
    Tiles(c, 0);
    if i > 0 {
      Tiles(c, i - 1);
      PrefixRoom(c, b, i - 1);
      assert SegmentFits(c, i - 1, b);
      ItemsSplit(c.bins, b, 0, c.Begin(i - 1), c.Begin(i));
      Next(i - 1, c.perThread);
    }
  }

  /** Moving the next segment down extends the merged prefix and leaves the later segments alone. */
  lemma MovedSegments(c: Config, slots: seq<nat>, b: nat, i: nat, pos: nat, size: nat, hi: nat)
    requires c.Valid() && i < c.numThreads && pos <= Start(c, i)
    requires PrefixOk(c, slots, b, i, pos) && SegmentOk(c, slots, size, b, i, hi) && hi == c.Begin(i + 1)
    ensures Start(c, i) + size <= |slots|
    ensures PrefixOk(c, Moved(slots, Start(c, i), pos, size), b, i + 1, pos + size)
    ensures forall u, sizeU, hiU :: i < u && SegmentOk(c, slots, sizeU, b, u, hiU) ==>
      SegmentOk(c, Moved(slots, Start(c, i), pos, size), sizeU, b, u, hiU)
  {
    hide Start, Config.Begin;
    var next := Moved(slots, Start(c, i), pos, size);
    Tiles(c, i);
    ItemsSplit(c.bins, b, 0, c.Begin(i), c.Begin(i + 1));
    assert next[..pos + size] == slots[..pos] + slots[Start(c, i)..Start(c, i) + size];
    forall u, sizeU, hiU | i < u && SegmentOk(c, slots, sizeU, b, u, hiU)
      ensures SegmentOk(c, next, sizeU, b, u, hiU)
    {
      SegmentsApart(c, i, u);
      assert next[Start(c, u)..Start(c, u) + sizeU] == slots[Start(c, u)..Start(c, u) + sizeU];
    }
  }

  lemma MergeEnabled(c: Config, s: State, t: nat)
    requires c.Valid() && Inv(c, s) && t < c.numThreads && s.phase[t].Merging?
    ensures if s.phase[t].from < c.numThreads then CanMerge(c, s, t) else CanSolve(c, s, t)
    ensures s.phase[t].bin < c.numBins &&
      PrefixOk(c, s.slots[s.phase[t].bin], s.phase[t].bin, s.phase[t].from, s.phase[t].size)
  {
    hide Start, NoOverflow, Config.Begin, Arrived, Items, ThreadOk;
    var Merging(b, i, pos) := s.phase[t];
    PhaseAt(c, s, t);
    NotSolved(c, s, t);
    assert BinOk(c, s, b);
    if i < c.numThreads {
      PrefixRoom(c, b, i);
      assert SegmentOk(c, s.slots[b], s.sizes[i][b], b, i, HashedTo(c, s.phase[i], i));
    }
  }

  lemma MergeBin(c: Config, s: State, t: nat, b: nat)
    requires c.Valid() && Inv(c, s) && t < c.numThreads && CanMerge(c, s, t) && b < c.numBins
    ensures Merge(c, s, t).Shape(c) && BinOk(c, Merge(c, s, t), b)
  {
    hide Start, NoOverflow, Config.Begin, Arrived, PrefixOk, SegmentOk, ThreadOk, Moved;
    var r := Merge(c, s, t);
    var Merging(bin, i, pos) := s.phase[t];
    PhaseAt(c, s, t);
    MergeEnabled(c, s, t);
    if b == bin {
      NotSolved(c, s, t);
      assert BinOk(c, s, b);
      AllHashed(c, s, i);
      assert SegmentOk(c, s.slots[b], s.sizes[i][b], b, i, HashedTo(c, s.phase[i], i));
      MovedSegments(c, s.slots[b], b, i, pos, s.sizes[i][b], c.Begin(i + 1));
      forall u | i + 1 <= u < c.numThreads
        ensures SegmentOk(c, r.slots[b], r.sizes[u][b], b, u, HashedTo(c, r.phase[u], u))
      {
        assert SegmentOk(c, s.slots[b], s.sizes[u][b], b, u, HashedTo(c, s.phase[u], u));
      }
    } else {
      OtherBin(c, s, r, t, b);
    }
  }

  lemma MergeThread(c: Config, s: State, t: nat)
    requires c.Valid() && Inv(c, s) && t < c.numThreads && CanMerge(c, s, t)
    ensures Merge(c, s, t).Shape(c) && ThreadOk(c, Merge(c, s, t), t)
  {
    hide Start, NoOverflow, Config.Begin, Arrived, BinOk, Moved;
    var Merging(b, i, pos) := s.phase[t];
    PhaseAt(c, s, t);
    assert ThreadOk(c, s, i);
    AllHashed(c, s, i);
    Tiles(c, i);
    ItemsSplit(c.bins, b, 0, c.Begin(i), c.Begin(i + 1));
  }

  lemma MergeKeeps(c: Config, s: State, t: nat)
    requires c.Valid() && Inv(c, s) && t < c.numThreads && CanMerge(c, s, t)
    ensures Merge(c, s, t).Shape(c) && Inv(c, Merge(c, s, t))
  {
    hide BinOk, ThreadOk, Start, NoOverflow, Config.Begin, Arrived, Moved;
    var r := Merge(c, s, t);
    ArrivedSame(c, s, r, t);
    forall b | 0 <= b < c.numBins
      ensures BinOk(c, r, b)
    {
      MergeBin(c, s, t, b);
    }
    forall u | 0 <= u < c.numThreads
      ensures ThreadOk(c, r, u)
    {
      if u != t {
        OtherThread(c, s, r, t, u);
      } else {
        MergeThread(c, s, t);
      }
    }
  }

  lemma SolveBin(c: Config, s: State, t: nat, b: nat)
    requires c.Valid() && Inv(c, s) && t < c.numThreads && CanSolve(c, s, t) && b < c.numBins
    ensures Solve(c, s, t).Shape(c) && BinOk(c, Solve(c, s, t), b)
  {
    hide Start, NoOverflow, Config.Begin, Arrived, SegmentOk, ThreadOk;
    PhaseAt(c, s, t);
    MergeEnabled(c, s, t);
    Tiles(c, 0);
    if b != s.phase[t].bin {
      OtherBin(c, s, Solve(c, s, t), t, b);
    }
  }

  lemma SolveThread(c: Config, s: State, t: nat)
    requires c.Valid() && Inv(c, s) && t < c.numThreads && CanSolve(c, s, t)
    ensures Solve(c, s, t).Shape(c) && ThreadOk(c, Solve(c, s, t), t)
  {
    hide Start, NoOverflow, Config.Begin, Arrived, BinOk, Items;
    var b: nat := s.phase[t].bin;
    PhaseAt(c, s, t);
    forall k: nat | b <= k < b + c.numThreads && k % c.numThreads == b % c.numThreads
      ensures k == b
    {
      SameResidue(c.numThreads, b, k);
    }
    SameResidue(c.numThreads, b, b + c.numThreads);
    assert TurnOk(c, s.phase[t], s.solved, t);
  }

  lemma SameResidue(m: nat, b: nat, k: nat)
    requires m > 0 && b <= k <= b + m
    ensures k < b + m && k % m == b % m ==> k == b
    ensures k == b + m ==> k % m == b % m
  {
    DivMod(b, m);
    DivMod(k, m);
    if k == b + m {
      Next(b / m, m);
      DivUnique(k, m, b / m + 1, b % m);
    } else if k % m == b % m {
      assert (k / m - b / m) * m == k - b;
      MulCancel(k / m - b / m, 1, m);
      MulCancel(-1, k / m - b / m, m);
    }
  }

  lemma SolveKeeps(c: Config, s: State, t: nat)
    requires c.Valid() && Inv(c, s) && t < c.numThreads && CanSolve(c, s, t)
    ensures Solve(c, s, t).Shape(c) && Inv(c, Solve(c, s, t))
  {
    hide BinOk, ThreadOk, Start, NoOverflow, Config.Begin, Arrived;
    var r := Solve(c, s, t);
    PhaseAt(c, s, t);
    ArrivedSame(c, s, r, t);
    forall b | 0 <= b < c.numBins
      ensures BinOk(c, r, b)
    {
      SolveBin(c, s, t, b);
    }
    forall u | 0 <= u < c.numThreads
      ensures ThreadOk(c, r, u)
    {
      if u != t {
        OtherThread(c, s, r, t, u);
      } else {
        SolveThread(c, s, t);
      }
    }
  }

  /** Every step of every thread keeps the invariant. */
  lemma StepKeeps(c: Config, s: State, t: nat)
    requires c.Valid() && Inv(c, s) && CanStep(c, s, t)
    ensures Step(c, s, t).Shape(c) && Inv(c, Step(c, s, t))
  {
    hide ThreadOk, BinOk, BarrierOk, NoOverflow, CanHash, CanMerge, CanSolve, Config.Begin, Arrive, Hash, Choose,
      Merge, Solve;
    match s.phase[t] {
      case Hashing(pos) => if pos == c.Begin(t + 1) { ArriveKeeps(c, s, t); } else { HashKeeps(c, s, t); }
      case Waiting => ResumeKeeps(c, s, t);
      case Choosing(_) => ChooseKeeps(c, s, t);
      case Merging(_, _, _) => if CanMerge(c, s, t) { MergeKeeps(c, s, t); } else { SolveKeeps(c, s, t); }
      case Finished =>
    }
  }

  lemma {:induction false} RunKeeps(c: Config, schedule: seq<nat>)
    requires c.Valid() && NoOverflow(c)
    ensures Inv(c, Run(c, schedule))
  {
    hide Inv, NoOverflow, CanStep, Step;
    if schedule == [] {
      InitInv(c);
    } else {
      var s := Run(c, schedule[..|schedule| - 1]);
      var t := schedule[|schedule| - 1];
      RunKeeps(c, schedule[..|schedule| - 1]);
      if CanStep(c, s, t) {
        StepKeeps(c, s, t);
      }
    }
  }

  // What this says of whole runs.

  ghost predicate Ended(s: State) {
    forall t :: 0 <= t < |s.phase| ==> s.phase[t].Finished?
  }

  /** Under every schedule and for every number of threads, a run that ends has solved every bin, with exactly the
      items of the bin, in input order; and a run fails only when some bin is too full. */
  lemma RunSolvesBins(c: Config, schedule: seq<nat>)
    requires c.Valid() && NoOverflow(c)
    ensures var s := Run(c, schedule);
      && (Ended(s) ==> forall b :: 0 <= b < c.numBins ==> s.solved[b] == Some(Items(c.bins, b, 0, |c.bins|)))
      && (Ended(s) ==> forall b :: 0 <= b < c.numBins ==> |Items(c.bins, b, 0, |c.bins|)| <= c.itemsPerBin)
      && (s.failed ==> exists b :: 0 <= b < c.numBins && TooFull(c, b))
  {
    hide NoOverflow, Config.Begin, SegmentOk, PrefixOk, Run, Items;
    RunKeeps(c, schedule);
    var s := Run(c, schedule);
    if Ended(s) {
      forall b | 0 <= b < c.numBins
        ensures s.solved[b].Some? && BinOk(c, s, b)
      {
        assert ThreadOk(c, s, b % c.numThreads);
      }
    }
  }

  /** A thread takes up a bin only after every thread has hashed all of its items. */
  lemma NoEarlyRead(c: Config, schedule: seq<nat>, t: nat, u: nat)
    requires c.Valid() && NoOverflow(c) && t < c.numThreads && u < c.numThreads
    requires var ph := Run(c, schedule).phase[t]; ph.Choosing? || ph.Merging? || ph.Finished?
    ensures !Run(c, schedule).phase[u].Hashing?
  {
    hide NoOverflow, Config.Begin, BinOk, Run;
    RunKeeps(c, schedule);
    PhaseAt(c, Run(c, schedule), t);
    BarrierHolds(c, Run(c, schedule), u);
  }

  /** While a run has neither ended nor failed, some thread can step. */
  lemma NoDeadlock(c: Config, schedule: seq<nat>)
    requires c.Valid() && NoOverflow(c)
    ensures var s := Run(c, schedule); Ended(s) || s.failed || exists t: nat :: t < c.numThreads && CanStep(c, s, t)
  {
    hide NoOverflow, Config.Begin, BinOk, Run, ThreadOk, CanHash, CanMerge, CanSolve;
    RunKeeps(c, schedule);
    var s := Run(c, schedule);
    if !Ended(s) && !s.failed {
      var t :| 0 <= t < c.numThreads && !s.phase[t].Finished?;
      if s.phase[t].Waiting? && !s.released {
        var u := SomeHashing(c, s);
        HashEnabled(c, s, u);
        assert CanStep(c, s, u);
      } else {
        if s.phase[t].Hashing? {
          HashEnabled(c, s, t);
        } else if s.phase[t].Merging? {
          MergeEnabled(c, s, t);
        }
        assert CanStep(c, s, t);
      }
    }
  }

  lemma SomeHashing(c: Config, s: State) returns (u: nat)
    requires c.Valid() && s.Shape(c) && BarrierOk(c, s) && !s.released
    ensures u < c.numThreads && s.phase[u].Hashing?
  {
    if forall t :: 0 <= t < c.numThreads ==> !s.phase[t].Hashing? {
      NoneHashing(c, s);
    }
    u :| 0 <= u < c.numThreads && s.phase[u].Hashing?;
  }

  lemma NoneHashing(c: Config, s: State)
    requires c.Valid() && s.Shape(c) && BarrierOk(c, s)
    requires forall t :: 0 <= t < c.numThreads ==> !s.phase[t].Hashing?
    ensures s.released
  {
    assert Arrived(s.phase) == Below(c.numThreads);
  }

  lemma HashEnabled(c: Config, s: State, t: nat)
    requires c.Valid() && Inv(c, s) && t < c.numThreads && s.phase[t].Hashing?
    ensures s.phase[t].pos == c.Begin(t + 1) || CanHash(c, s, t)
  {
    hide NoOverflow, Config.Begin, BinOk, Items;
    assert ThreadOk(c, s, t);
    var pos: nat := s.phase[t].pos;
    if pos != c.Begin(t + 1) {
      SegmentRoom(c, c.bins[pos], t, pos);
    }
  }

  /** An upper bound on the steps that thread t still has to take. */
  ghost function Work(c: Config, ph: Phase, t: nat): int
    requires c.Valid()
  {
    match ph
    case Hashing(pos) => BinWork(c, 0) + 3 + c.Begin(t + 1) - pos
    case Waiting => BinWork(c, 0) + 2
    case Choosing(b) => if b >= c.numBins then 1 else BinWork(c, b) + 1
    case Merging(b, i, _) => BinWork(c, b) - i
    case Finished => 0
  }

  ghost function BinWork(c: Config, b: nat): int {
    (c.numBins - b) * (c.numThreads + 2)
  }

  ghost function AllWork(c: Config, phase: seq<Phase>, k: nat): int
    requires c.Valid() && k <= |phase|
  {
    if k == 0 then 0 else AllWork(c, phase, k - 1) + Work(c, phase[k - 1], k - 1)
  }

  ghost function Remaining(c: Config, s: State): int
    requires c.Valid()
  {
    AllWork(c, s.phase, |s.phase|) + if s.failed then 0 else 1
  }

  lemma {:induction false} WorkUpdate(c: Config, phase: seq<Phase>, t: nat, ph: Phase, k: nat)
    requires c.Valid() && t < |phase| && k <= |phase|
    ensures AllWork(c, phase[t := ph], k) ==
      AllWork(c, phase, k) + if t < k then Work(c, ph, t) - Work(c, phase[t], t) else 0
  {
    if k > 0 {
      WorkUpdate(c, phase, t, ph, k - 1);
    }
  }

  lemma BinWorkDrops(c: Config, b: nat, k: nat)
    requires b < k <= c.numBins
    ensures BinWork(c, k) + c.numThreads + 2 <= BinWork(c, b) && BinWork(c, k) >= 0
  {
    MulLe(c.numBins - k + 1, c.numBins - b, c.numThreads + 2);
    Next(c.numBins - k, c.numThreads + 2);
    MulLe(0, c.numBins - k, c.numThreads + 2);
  }

  lemma StepWorks(c: Config, s: State, t: nat)
    requires c.Valid() && Inv(c, s) && CanStep(c, s, t)
    ensures var r := Step(c, s, t);
      && r.phase == s.phase[t := r.phase[t]]
      && (if r.failed then r.phase == s.phase else Work(c, r.phase[t], t) < Work(c, s.phase[t], t))
  {
    hide NoOverflow, Config.Begin, BinOk, Items, Moved, Start, BinWork, BinSize, Arrived, MergedOk;
    PhaseAt(c, s, t);
    if 0 < t <= c.numBins {
      BinWorkDrops(c, 0, t);
    }
    match s.phase[t] {
      case Choosing(b) => if b < c.numBins { BinWorkDrops(c, b, c.numBins); }
      case Merging(b, i, _) =>
        if b + c.numThreads < c.numBins {
          BinWorkDrops(c, b, b + c.numThreads);
        } else {
          BinWorkDrops(c, b, c.numBins);
        }
      case _ =>
        NoBins(c);
    }
  }

  lemma NoBins(c: Config)
    ensures BinWork(c, 0) >= 0
  {
    MulLe(0, c.numBins, c.numThreads + 2);
  }

  lemma StepDescends(c: Config, s: State, t: nat)
    requires c.Valid() && Inv(c, s) && CanStep(c, s, t)
    ensures Remaining(c, Step(c, s, t)) < Remaining(c, s)
  {
    hide BinOk, ThreadOk, BarrierOk, NoOverflow, Step, Work;
    StepWorks(c, s, t);
    StepShape(c, s, t);
    var r := Step(c, s, t);
    WorkUpdate(c, s.phase, t, r.phase[t], |s.phase|);
  }

  /** The number of scheduled steps that were taken. */
  ghost function Taken(c: Config, schedule: seq<nat>): nat
    requires c.Valid()
  {
    if schedule == [] then 0
    else
      var init := schedule[..|schedule| - 1];
      Taken(c, init) + if CanStep(c, Run(c, init), schedule[|schedule| - 1]) then 1 else 0
  }

  lemma WorkLeft(c: Config, s: State, t: nat)
    requires c.Valid() && Inv(c, s) && t < c.numThreads
    ensures Work(c, s.phase[t], t) >= 0
  {
    hide NoOverflow, Config.Begin, BinOk, Items, BinWork, MergedOk;
    PhaseAt(c, s, t);
    NoBins(c);
    match s.phase[t] {
      case Choosing(b) => if b < c.numBins { BinWorkDrops(c, b, c.numBins); }
      case Merging(b, i, _) => BinWorkDrops(c, b, c.numBins);
      case _ =>
    }
  }

  lemma {:induction false} AllWorkLeft(c: Config, s: State, k: nat)
    requires c.Valid() && Inv(c, s) && k <= |s.phase|
    ensures AllWork(c, s.phase, k) >= 0
  {
    hide Inv, Work;
    if k > 0 {
      AllWorkLeft(c, s, k - 1);
      ShapeOf(c, s);
      WorkLeft(c, s, k - 1);
    }
  }

  lemma ShapeOf(c: Config, s: State)
    requires c.Valid() && Inv(c, s)
    ensures s.Shape(c)
  {}

  /** No run takes more steps than the bound on the work at its start: with no deadlock, every fair run ends or
      fails. */
  lemma {:induction false} RunsEnd(c: Config, schedule: seq<nat>)
    requires c.Valid() && NoOverflow(c)
    ensures Taken(c, schedule) + Remaining(c, Run(c, schedule)) <= Remaining(c, Init(c))
    ensures Remaining(c, Run(c, schedule)) >= 0
  {
    hide Inv, NoOverflow, CanStep, Step;
    RunKeeps(c, schedule);
    AllWorkLeft(c, Run(c, schedule), |Run(c, schedule).phase|);
    hide Remaining;
    if schedule != [] {
      var init := schedule[..|schedule| - 1];
      var t := schedule[|schedule| - 1];
      RunsEnd(c, init);
      RunKeeps(c, init);
      if CanStep(c, Run(c, init), t) {
        StepDescends(c, Run(c, init), t);
      }
    }
  }

  /** Every run can be continued until it has ended or failed. */
  lemma {:induction false} RunContinues(c: Config, schedule: seq<nat>) returns (all: seq<nat>)
    requires c.Valid() && NoOverflow(c)
    ensures schedule <= all && (Ended(Run(c, all)) || Run(c, all).failed)
    decreases Remaining(c, Run(c, schedule))
  {
    hide Inv, NoOverflow, CanStep, Step, Remaining, Ended;
    RunsEnd(c, schedule);
    RunKeeps(c, schedule);
    NoDeadlock(c, schedule);
    all := schedule;
    if !Ended(Run(c, schedule)) && !Run(c, schedule).failed {
      var t: nat :| t < c.numThreads && CanStep(c, Run(c, schedule), t);
      var next := schedule + [t];
      assert next[..|next| - 1] == schedule;
      StepDescends(c, Run(c, schedule), t);
      RunsEnd(c, next);
      all := RunContinues(c, next);
    }
  }
}
