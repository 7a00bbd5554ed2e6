/** The binned solver run by an explicit schedule: every scheduled thread takes its next step on the shared arrays. */
module BaxosRun {
  import opened Wrappers
  import opened Algebra
  import opened Peeling
  import opened LeastWeight
  import opened Gf128
  import opened Backfill
  import opened PaxosCore
  import opened PaxosGf128
  import opened BaxosBins
  import opened BaxosBacking
  import opened BaxosRoundTrip
  import opened Threads = BaxosSolve

  /** Keys that no thread's room is too small for, and whose bins can be encoded, with values and perhaps draws. */
  ghost predicate Solvable<V(!new)>(
    s: Space<Block, V>, l: Layout, c: Config, keys: seq<Block>, x: seq<V>, rand: Option<seq<Randomness<Block, V>>>,
    search: Search)
  {
    && FieldLaws(s) && Sorted(l, c, keys) && |x| == |keys|
    && (forall b :: 0 <= b < l.numBins ==> Encodable(l.param, BinKeys(c, keys, b)))
    && (l.param.dt == Binary ==> search.Fits(Bits(s), l.param.denseSize))
    && (rand.Some? ==> |rand.value| == l.numBins && forall b :: 0 <= b < l.numBins ==>
      rand.value[b].Fits(l.param.sparseSize, l.param.denseSize))
  }

  class ParSolve<V(!new)> {
    // What the threads are given.
    const s: Space<Block, V>
    const l: Layout
    const c: Config
    const keys: seq<Block>
    const x: seq<V>
    const rand: Option<seq<Randomness<Block, V>>>
    const search: Search

    // What they share: bin sizes by thread, hashes and values by bin and thread, the barrier, and the output.
    const hashes: array<Block>
    const values: array<V>
    const pp: array<V>
    var sizes: seq<seq<nat>>
    var arrived: nat
    var released: bool

    // Where each thread is, and whether one has thrown: over a bin that is too full, or in an encoding.
    var phase: seq<Phase>
    var failed: bool
    var status: Status

    ghost var state: State
    ghost var traces: seq<Trace>
    ghost const hashes0: seq<Block>
    ghost const values0: seq<V>

    /** What the caller provides fits together. */
    ghost predicate Given() {
      && Solvable(s, l, c, keys, x, rand, search)
      && hashes as object != values && hashes as object != pp && values != pp
      && pp.Length == l.Size() && hashes.Length == values.Length == BinBegin(c, c.numBins)
    }

    /** The threads' data is that of the abstract state. */
    ghost predicate Represents()
      reads this
    {
      && phase == state.phase && sizes == state.sizes && arrived == state.arrived
      && released == state.released && failed == state.failed
    }

    /** The part of every solved bin is done. */
    ghost predicate Solved()
      requires Given() && state.Shape(c)
      reads this, pp
    {
      ForEachBin(l, traces, rand) && forall b :: 0 <= b < l.numBins && state.solved[b].Some? ==>
        BinDone(s, l, c, search, keys, x, pp[..], b, traces[b], DrawOf(rand, b))
    }

    ghost predicate Valid()
      reads this, hashes, values, pp
    {
      && Given() && Inv(c, state) && Represents()
      && Mirrors(hashes[..], keys, hashes0, c, state) && Mirrors(values[..], x, values0, c, state)
      && Solved()
    }

    /** The concrete part of a step: the shared arrays take the same step as the abstract state. */
    twostate predicate Stepped(t: nat)
      requires Given() && old(state).Shape(c) && CanStep(c, old(state), t)
      reads this, hashes, values
    {
      && state == Step(c, old(state), t) && Represents()
      && hashes[..] == ArrayStep(c, old(state), old(hashes[..]), keys, t)
      && values[..] == ArrayStep(c, old(state), old(values[..]), x, t)
    }

    constructor (
      s: Space<Block, V>, l: Layout, c: Config, keys: seq<Block>, x: seq<V>, rand: Option<seq<Randomness<Block, V>>>,
      search: Search, pp: array<V>)
      requires Solvable(s, l, c, keys, x, rand, search) && pp.Length == l.Size()
      ensures Valid() && state == Init(c) && status == Encoded
      ensures fresh(hashes) && fresh(values)
      ensures hashes[..] == hashes0 && values[..] == values0
      ensures this.s == s && this.l == l && this.c == c && this.keys == keys && this.x == x && this.rand == rand
      ensures this.pp == pp && this.search == search
    {
      this.s, this.l, this.c, this.keys, this.x := s, l, c, keys, x;
      this.rand, this.search, this.pp := rand, search, pp;
      hide *;
      SolvableFacts(s, l, c, keys, x, rand, search);
      InitFields(c);
      InitInv(c);
      var room := BinBegin(c, c.numBins);
      var h, v := new Block[room], new V[room](_ => s.vzero);
      hashes, values, hashes0, values0 := h, v, h[..], v[..];
      sizes := seq(c.numThreads, _ => seq(c.numBins, _ => 0));
      phase := seq(c.numThreads, t requires 0 <= t < c.numThreads => Hashing(c.Begin(t)));
      arrived, released, failed, status := 0, false, false, Encoded;
      state := Init(c);
      traces := seq(l.numBins, _ => Trace(Triangle([], [], []), []));
      new;
      InitMirrors(c, hashes0, keys);
      InitMirrors(c, values0, x);
      OneForEach(l, traces, rand);
      StartsValid();
    }

    lemma StartsValid()
      requires Solvable(s, l, c, keys, x, rand, search) && c.Valid() && state == Init(c) && Inv(c, state)
      requires hashes as object != values && hashes as object != pp && values != pp
      requires l.Fits() && pp.Length == l.Size() && hashes.Length == values.Length == BinBegin(c, c.numBins)
      requires phase == Init(c).phase && sizes == Init(c).sizes && arrived == 0 && !released && !failed
      requires Mirrors(hashes[..], keys, hashes0, c, state) && Mirrors(values[..], x, values0, c, state)
      requires ForEachBin(l, traces, rand)
      ensures Valid()
    {
      hide Solvable, Inv, Mirrors, Init, BinDone, BinBegin;
      SolvableFacts(s, l, c, keys, x, rand, search);
      InitFields(c);
    }

    /** Hashes the next item into its bin: its key and its value go behind those that the thread put there before. */
    method HashItem(t: nat)
      requires Valid() && t < c.numThreads && CanStep(c, state, t)
      requires phase[t].Hashing? && phase[t].pos != c.Begin(t + 1)
      modifies this`sizes, this`phase, this`state, hashes, values
      ensures Stepped(t) && state.solved == old(state.solved)
    {
      hide Given, Inv, Mirrors, Solved, Start, BinBegin, Config.Begin, ArrayStep, BinOf;
      ValidFacts();
      HashStep(c, state, hashes[..], keys, t);
      HashStep(c, state, values[..], x, t);
      var pos: nat := phase[t].pos;
      var b := BinOf(keys[pos], l.numBins);
      var bs := sizes[t][b];
      var at := BinBegin(c, b) + Start(c, t) + bs;
      hashes[at] := keys[pos];
      values[at] := x[pos];
      sizes := sizes[t := sizes[t][b := bs + 1]];
      phase := phase[t := Hashing(pos + 1)];
      state := Step(c, state, t);
    }

    /** Reports that the thread has hashed its items; the last thread to do so opens the barrier and goes on. */
    method ReportDone(t: nat)
      requires Valid() && t < c.numThreads && CanStep(c, state, t)
      requires phase[t].Hashing? && phase[t].pos == c.Begin(t + 1)
      modifies this`phase, this`arrived, this`released, this`state
      ensures Stepped(t) && state.solved == old(state.solved)
    {
      hide Given, Inv, Mirrors, Solved, BinBegin, Config.Begin;
      ValidFacts();
      arrived := arrived + 1;
      if arrived == c.numThreads {
        released := true;
        phase := phase[t := Choosing(t)];
      } else {
        phase := phase[t := Phase.Waiting];
      }
      state := Step(c, state, t);
    }

    /** Goes on when the barrier is open. */
    method PassBarrier(t: nat)
      requires Valid() && t < c.numThreads && CanStep(c, state, t) && phase[t].Waiting?
      modifies this`phase, this`state
      ensures Stepped(t) && state.solved == old(state.solved)
    {
      hide Given, Inv, Mirrors, Solved, BinBegin, Config.Begin;
      ValidFacts();
      phase := phase[t := Choosing(t)];
      state := Step(c, state, t);
    }

    /** Takes up the next bin of the thread, or stops; throws when the bin is too full. */
    method ChooseBin(t: nat)
      requires Valid() && t < c.numThreads && CanStep(c, state, t) && phase[t].Choosing?
      modifies this`phase, this`failed, this`state
      ensures Stepped(t) && state.solved == old(state.solved)
    {
      hide Given, Inv, Mirrors, Solved, BinBegin, Config.Begin;
      ValidFacts();
      var b := phase[t].bin;
      if b >= c.numBins {
        phase := phase[t := Finished];
      } else {
        var binSize := 0;
        for i := 0 to c.numThreads
          invariant binSize == Threads.BinSize(sizes, b, i)
        {
          binSize := binSize + sizes[i][b];
        }
        if binSize > c.itemsPerBin {
          failed := true;
        } else {
          phase := phase[t := Merging(b, 1, sizes[0][b])];
        }
      }
      state := Step(c, state, t);
    }

    /** Moves the next thread's segment of the bin down, in the hashes and in the values. */
    method MoveSegment(t: nat)
      requires Valid() && t < c.numThreads && CanStep(c, state, t) && phase[t].Merging? && CanMerge(c, state, t)
      modifies this`phase, this`state, hashes, values
      ensures Stepped(t) && state.solved == old(state.solved)
    {
      hide Given, Inv, Mirrors, Solved, Start, BinBegin, Config.Begin, ArrayStep, Moved;
      ValidFacts();
      MergeStep(c, state, hashes[..], keys, t);
      MergeStep(c, state, values[..], x, t);
      var Merging(b, i, pos) := phase[t];
      var size := sizes[i][b];
      MoveDown(hashes, BinBegin(c, b) + Start(c, i), BinBegin(c, b) + pos, size);
      MoveDown(values, BinBegin(c, b) + Start(c, i), BinBegin(c, b) + pos, size);
      phase := phase[t := Merging(b, i + 1, pos + size)];
      state := Step(c, state, t);
    }

    /** Encodes the merged bin into its part of the output; an encoding that does not return ends the run. */
    method SolveBin(t: nat)
      requires Valid() && status == Encoded && t < c.numThreads && CanStep(c, state, t)
      requires phase[t].Merging? && !CanMerge(c, state, t)
      modifies this`phase, this`state, this`traces, this`status, pp
      ensures status == Encoded ==> Stepped(t) && Solved()
      ensures status != Encoded ==> !BinsPeel(l, c, keys)
    {
      hide Given, Inv, Mirrors, BinBegin, BinDone, BinKeys, BinItems, Pick, Step, ArrayStep, CanStep, CanMerge,
        CanSolve, BinsPeel;
      ValidFacts();
      ReadyToSolve(t);
      SolveStep(c, state, hashes[..], keys, t);
      SolveStep(c, state, values[..], x, t);
      var Merging(b, i, pos) := phase[t];
      EncodePart(b, BinBegin(c, b), pos);
      phase := phase[t := Choosing(b + c.numThreads)];
      state := Step(c, state, t);
    }

    /** The keys and values of bin b stand in the shared arrays, from begin on. */
    ghost predicate Merged(b: nat, begin: nat, size: nat)
      reads hashes, values
    {
      && |x| == |keys| == |c.bins| && begin + size <= hashes.Length == values.Length
      && hashes[begin..begin + size] == BinKeys(c, keys, b) && values[begin..begin + size] == Pick(x, BinItems(c, b))
    }

    /** The parts of bin b and of every solved bin are done. */
    ghost predicate SolvedAnd(b: nat)
      reads this, pp
    {
      && |x| == |keys| == |c.bins| && l.Fits() && state.Shape(c) && c.numBins == l.numBins
      && ForEachBin(l, traces, rand)
      && forall d :: 0 <= d < l.numBins && (d == b || state.solved[d].Some?) ==>
        BinDone(s, l, c, search, keys, x, pp[..], d, traces[d], DrawOf(rand, d))
    }

    /** Encodes the keys and values that stand from begin on, those of bin b, into the part of b. */
    method EncodePart(b: nat, begin: nat, size: nat)
      requires Valid() && status == Encoded && b < l.numBins && Merged(b, begin, size)
      modifies this`traces, this`status, pp
      ensures status == Encoded ==> SolvedAnd(b)
      ensures status != Encoded ==> !BinsPeel(l, c, keys)
    {
      hide Given, Inv, Mirrors, BinDone, Pick, BinPart, BinKeys, BinItems, TraceOf, BinDecodes, BinCancels, Encodable,
        Decodable, FieldLaws, Randomness.Fits, Search.Fits, Represents, MainsDecode, BinDrawn, HashesPeel;
      ValidFacts();
      GivenForBin(b);
      var part := new V[l.PartSize()](_ => s.vzero);
      ghost var tri, fcinv;
      status, tri, fcinv :=
        EncodeBin(s, l.param, hashes[begin..begin + size], values[begin..begin + size], DrawOf(rand, b), search, part);
      if status != Encoded {
        return;
      }
      ghost var output := pp[..];
      PartInRange(l.numBins, b, l.PartSize());
      WritePart(l, b, part, pp);
      NewlyDone(s, l, c, search, keys, x, pp[..], part[..], b, Trace(tri, fcinv), DrawOf(rand, b));
      forall d | 0 <= d < l.numBins && d != b && state.solved[d].Some?
        ensures BinDone(s, l, c, search, keys, x, pp[..], d, traces[d], DrawOf(rand, d))
      {
        PartInRange(l.numBins, d, l.PartSize());
        StillDone(s, l, c, search, keys, x, output, pp[..], d, traces[d], DrawOf(rand, d));
      }
      traces := traces[b := Trace(tri, fcinv)];
    }

    /** What the solver of a bin finds in the shared arrays: the keys and values of the bin, in input order. */
    lemma ReadyToSolve(t: nat)
      requires Valid() && t < c.numThreads && CanStep(c, state, t)
      requires phase[t].Merging? && !CanMerge(c, state, t)
      ensures var Merging(b, i, pos) := phase[t];
        CanSolve(c, state, t) && b < c.numBins && Merged(b, BinBegin(c, b), pos)
    {
      hide Given, Inv, Mirrors, Solved, BinBegin, Config.Begin, Pick, BinItems, CanStep, CanMerge, CanSolve;
      ValidFacts();
      MergedItemsOf(c, state, hashes[..], keys, hashes0, t);
      MergedItemsOf(c, state, values[..], x, values0, t);
      var Merging(b, i, pos) := phase[t];
      assert hashes[..][BinBegin(c, b)..BinBegin(c, b) + pos] == hashes[BinBegin(c, b)..BinBegin(c, b) + pos];
      assert values[..][BinBegin(c, b)..BinBegin(c, b) + pos] == values[BinBegin(c, b)..BinBegin(c, b) + pos];
    }

    lemma GivenForBin(b: nat)
      requires Given() && b < l.numBins
      ensures FieldLaws(s) && l.Fits() && Decodable(l.param) && |x| == |keys| == |c.bins|
      ensures values != pp && hashes as object != pp && pp.Length == l.Size()
      ensures Encodable(l.param, BinKeys(c, keys, b))
      ensures l.param.dt == Binary ==> search.Fits(Bits(s), l.param.denseSize)
      ensures DrawOf(rand, b).Some? ==> DrawOf(rand, b).value.Fits(l.param.sparseSize, l.param.denseSize)
    {
      hide FieldLaws, BinKeys, Encodable, NoOverflow, Randomness.Fits, Search.Fits, Decodable;
    }

    /** Whether the thread has a next step. */
    method Enabled(t: nat) returns (e: bool)
      requires Valid()
      ensures e <==> state.Shape(c) && CanStep(c, state, t)
    {
      hide Given, Inv, Mirrors, Solved, BinBegin, Config.Begin, CanHash, CanMerge, CanSolve;
      ValidFacts();
      e := t < c.numThreads && !failed && !phase[t].Finished? && (phase[t].Waiting? ==> released);
      if t < c.numThreads && phase[t].Hashing? {
        HashEnabled(c, state, t);
      } else if t < c.numThreads && phase[t].Merging? {
        MergeEnabled(c, state, t);
      }
    }

    /** The next step of the thread, if it has one. */
    method TakeStep(t: nat)
      requires Valid() && status == Encoded
      modifies this, hashes, values, pp
      ensures l.Fits() && |keys| == |c.bins|
      ensures if status == Encoded then Valid() else !BinsPeel(l, c, keys)
      ensures old(state).Shape(c) && (status == Encoded ==>
        if CanStep(c, old(state), t) then Stepped(t)
        else state == old(state) && hashes[..] == old(hashes[..]) && values[..] == old(values[..]))
    {
      hide Given, Inv, Mirrors, BinBegin, Config.Begin, CanStep, CanMerge, Step, ArrayStep, BinDone, BinsPeel;
      ValidFacts();
      var e := Enabled(t);
      if !e {
        return;
      }
      StepKeeps(c, state, t);
      StepMirrors(c, state, hashes[..], keys, hashes0, t);
      StepMirrors(c, state, values[..], x, values0, t);
      EnabledThread(c, state, t);
      match phase[t] {
        case Hashing(pos) => if pos == c.Begin(t + 1) { ReportDone(t); } else { HashItem(t); }
        case Waiting => PassBarrier(t);
        case Choosing(_) => ChooseBin(t);
        case Merging(_, i, _) => if i < c.numThreads { MoveSegment(t); } else { SolveBin(t); }
        case Finished =>
      }
    }

    /** The threads take their steps in the order of the schedule. */
    method Run(schedule: seq<nat>)
      requires Valid() && status == Encoded && state == Init(c) && hashes[..] == hashes0 && values[..] == values0
      modifies this, hashes, values, pp
      ensures l.Fits() && |keys| == |c.bins|
      ensures if status == Encoded then Valid() && state == Threads.Run(c, schedule) else !BinsPeel(l, c, keys)
      ensures status == Encoded ==>
        hashes[..] == ArrayRun(c, schedule, hashes0, keys) && values[..] == ArrayRun(c, schedule, values0, x)
    {
      hide Given, Inv, Mirrors, BinBegin, Config.Begin, CanStep, Step, ArrayStep, BinDone, Init, Solved, BinsPeel;
      ValidFacts();
      assert schedule[..0] == [];
      for k := 0 to |schedule|
        invariant Valid() && status == Encoded && state == Threads.Run(c, schedule[..k])
        invariant hashes[..] == ArrayRun(c, schedule[..k], hashes0, keys)
        invariant values[..] == ArrayRun(c, schedule[..k], values0, x)
      {
        var t := schedule[k];
        assert schedule[..k + 1][..k] == schedule[..k];
        TakeStep(t);
        if status != Encoded {
          return;
        }
      }
      assert schedule[..|schedule|] == schedule;
    }

    lemma ValidFacts()
      requires Valid()
      ensures state.Shape(c)
      ensures l.Fits() && c.Valid() && NoOverflow(c) && c.numBins == l.numBins && |x| == |keys| == |c.bins|
      ensures forall i :: 0 <= i < |keys| ==> c.bins[i] == BinOf(keys[i], l.numBins)
      ensures this.rand.Some? ==> |rand.value| == l.numBins
      ensures hashes as object != values && hashes as object != pp && values != pp
      ensures hashes.Length == values.Length == BinBegin(c, c.numBins) && pp.Length == l.Size()
    {
      hide FieldLaws, Mirrors, Solved, Solvable;
      SolvableFacts(s, l, c, keys, x, rand, search);
    }
  }

  lemma SolvableFacts<V(!new)>(
    s: Space<Block, V>, l: Layout, c: Config, keys: seq<Block>, x: seq<V>, rand: Option<seq<Randomness<Block, V>>>,
    search: Search)
    requires Solvable(s, l, c, keys, x, rand, search)
    ensures FieldLaws(s) && Sorted(l, c, keys) && |x| == |keys| && l.Fits()
    ensures l.Valid() && c.Valid() && NoOverflow(c) && c.numBins == l.numBins && |keys| == |c.bins|
    ensures rand.Some? ==> |rand.value| == l.numBins
    ensures forall i :: 0 <= i < |keys| ==> c.bins[i] == BinOf(keys[i], l.numBins)
  {
    hide FieldLaws, BinOf, NoOverflow, Encodable, Randomness.Fits, Search.Fits;
  }

  lemma OneForEach<V>(l: Layout, traces: seq<Trace>, rand: Option<seq<Randomness<Block, V>>>)
    requires |traces| == l.numBins && (rand.Some? ==> |rand.value| == l.numBins)
    ensures ForEachBin(l, traces, rand)
  {}

  lemma InitFields(c: Config)
    requires c.Valid()
    ensures Init(c).phase == seq(c.numThreads, t requires 0 <= t < c.numThreads => Hashing(c.Begin(t)))
    ensures Init(c).sizes == seq(c.numThreads, _ => seq(c.numBins, _ => 0))
    ensures Init(c).arrived == 0 && !Init(c).released && !Init(c).failed
    ensures Init(c).Shape(c) && forall b :: 0 <= b < c.numBins ==> Init(c).solved[b].None?
  {}

  /** What hashing an item writes. */
  lemma HashStep<T>(c: Config, s: State, a: seq<T>, source: seq<T>, t: nat)
    requires c.Valid() && s.Shape(c) && t < c.numThreads && CanStep(c, s, t)
    requires |source| == |c.bins| && |a| == BinBegin(c, c.numBins)
    requires s.phase[t].Hashing? && s.phase[t].pos != c.Begin(t + 1)
    ensures var pos: nat := s.phase[t].pos;
      && pos < |c.bins| && c.bins[pos] < c.numBins
      && var b := c.bins[pos];
        var at := BinBegin(c, b) + Start(c, t) + s.sizes[t][b];
        at < |a| && ArrayStep(c, s, a, source, t) == a[at := source[pos]]
  {
    hide Start, BinBegin, Config.Begin;
    var pos: nat := s.phase[t].pos;
    SlotPlace(c, c.bins[pos], t, s.sizes[t][c.bins[pos]]);
  }

  /** What solving a bin changes: the phase of the thread, and the bin is solved. */
  lemma SolveStep<T>(c: Config, s: State, a: seq<T>, source: seq<T>, t: nat)
    requires c.Valid() && s.Shape(c) && t < c.numThreads && CanStep(c, s, t)
    requires |source| == |c.bins| && |a| == BinBegin(c, c.numBins)
    requires s.phase[t].Merging? && !CanMerge(c, s, t)
    ensures ArrayStep(c, s, a, source, t) == a
    ensures var b, r := s.phase[t].bin, Step(c, s, t);
      && b < c.numBins && r.phase == s.phase[t := Choosing(b + c.numThreads)] && r.sizes == s.sizes
      && r.arrived == s.arrived && r.released == s.released && r.failed == s.failed
      && r.Shape(c) && forall d :: 0 <= d < c.numBins && d != b ==> r.solved[d] == s.solved[d]
  {
    hide Start, BinBegin, Config.Begin, CanMerge;
    StepShape(c, s, t);
  }

  /** What moving a segment writes. */
  lemma MergeStep<T>(c: Config, s: State, a: seq<T>, source: seq<T>, t: nat)
    requires c.Valid() && s.Shape(c) && t < c.numThreads && CanStep(c, s, t)
    requires |source| == |c.bins| && |a| == BinBegin(c, c.numBins)
    requires s.phase[t].Merging? && CanMerge(c, s, t)
    ensures var Merging(b, i, pos) := s.phase[t];
      var from, to := BinBegin(c, b) + Start(c, i), BinBegin(c, b) + pos;
      && to <= from && from + s.sizes[i][b] <= |a|
      && ArrayStep(c, s, a, source, t) == Moved(a, from, to, s.sizes[i][b])
  {
    hide Start, BinBegin, Config.Begin, Moved;
    var Merging(b, i, pos) := s.phase[t];
    SegmentPlace(c, b, i, s.sizes[i][b]);
  }

  lemma EnabledThread(c: Config, s: State, t: nat)
    requires c.Valid() && Inv(c, s) && CanStep(c, s, t)
    ensures s.Shape(c) && t < c.numThreads && !s.phase[t].Finished?
    ensures s.phase[t].Merging? ==> (CanMerge(c, s, t) <==> s.phase[t].from < c.numThreads)
  {
    hide Config.Begin;
    if s.phase[t].Merging? {
      MergeEnabled(c, s, t);
    }
  }

  /** When nothing is left to merge, the bin's items stand together in order. */
  lemma MergedItemsOf<T>(c: Config, s: State, a: seq<T>, source: seq<T>, before: seq<T>, t: nat)
    requires c.Valid() && Inv(c, s) && t < c.numThreads && Mirrors(a, source, before, c, s) && CanStep(c, s, t)
    requires s.phase[t].Merging? && !CanMerge(c, s, t) && |source| == |c.bins|
    ensures var Merging(b, i, pos) := s.phase[t];
      && CanSolve(c, s, t) && b < c.numBins && BinBegin(c, b) + pos <= |a|
      && a[BinBegin(c, b)..BinBegin(c, b) + pos] == Pick(source, BinItems(c, b))
  {
    hide Mirrors, Inv, BinBegin, Pick, Items, CanMerge;
    MergeEnabled(c, s, t);
    PhaseAt(c, s, t);
    MergedUp(c, s, a, source, before, t);
  }

  /** A bin whose part was just written is done. */
  lemma NewlyDone<V(!new)>(
    s: Space<Block, V>, l: Layout, c: Config, search: Search, keys: seq<Block>, x: seq<V>, pp: seq<V>, part: seq<V>,
    b: nat, trace: Trace, rand: Option<Randomness<Block, V>>)
    requires |x| == |keys| == |c.bins| && l.param.weight <= l.param.sparseSize && (b + 1) * l.PartSize() <= |pp|
    requires BinPart(pp, b, l.PartSize()) == part && TraceOf(l.param, BinKeys(c, keys, b), trace.t, trace.fcinv)
    requires BinDecodes(s, l.param, BinKeys(c, keys, b), part, Pick(x, BinItems(c, b))) <==>
      BinCancels(s, l.param, BinKeys(c, keys, b), trace.t, trace.fcinv, rand)
    requires MainsDecode(s, l.param, BinKeys(c, keys, b), trace.t, part, Pick(x, BinItems(c, b)))
    requires BinDrawn(s, l.param, search, BinKeys(c, keys, b), trace.t, trace.fcinv, rand, part)
    ensures BinDone(s, l, c, search, keys, x, pp, b, trace, rand)
  {
    hide BinKeys, BinItems, Pick, BinPart, TraceOf, BinDecodes, BinCancels, MainsDecode, BinDrawn;
  }

  /** A bin whose part was not written stays done. */
  lemma StillDone<V(!new)>(
    s: Space<Block, V>, l: Layout, c: Config, search: Search, keys: seq<Block>, x: seq<V>, pp: seq<V>, pp': seq<V>,
    b: nat, trace: Trace, rand: Option<Randomness<Block, V>>)
    requires |x| == |keys| == |c.bins| && l.param.weight <= l.param.sparseSize && (b + 1) * l.PartSize() <= |pp|
    requires |pp'| == |pp| && BinPart(pp', b, l.PartSize()) == BinPart(pp, b, l.PartSize())
    requires BinDone(s, l, c, search, keys, x, pp, b, trace, rand)
    ensures BinDone(s, l, c, search, keys, x, pp', b, trace, rand)
  {
    hide BinKeys, BinItems, Pick, BinPart, TraceOf, BinDecodes, BinCancels, MainsDecode, BinDrawn;
  }

  /**
   * The whole way, in either dense mode, with or without random values. The threads take their steps in the order of
   * any schedule: they sort the keys and values into the shared arrays, meet at the barrier, merge the bins and encode
   * them. If that ends without a throw, the output is decoded through the bins: the keys of a bin get their values
   * exactly when what is drawn for it cancels on what remains of its gap rows, without a draw all keys do, and what the
   * rows do not determine of the output is what was drawn. No encoding throws if the rows of every bin can be peeled.
   */
  method SolveThenDecodeBins<V(!new)>(
    s: Space<Block, V>, l: Layout, c: Config, keys: seq<Block>, x: seq<V>, schedule: seq<nat>,
    rand: Option<seq<Randomness<Block, V>>>, search: Search, pp: array<V>, values: array<V>)
    returns (r: Status, ended: bool, ghost traces: seq<Trace>)
    requires Solvable(s, l, c, keys, x, rand, search)
    requires pp.Length == l.Size() && values.Length == |keys| && pp != values
    modifies pp, values
    ensures r == Encoded ==> (ended <==> Ended(Threads.Run(c, schedule)))
    ensures r == Encoded && ended ==> Traced(l, c, keys, traces)
    ensures r == Encoded && ended && rand.None? ==> values[..] == x
    ensures r == Encoded && ended ==> (values[..] == x <==> DrawsCancel(s, l, c, keys, traces, rand))
    ensures r == Encoded && ended ==> BinByBin(s, l, c, keys, x, traces, rand, values[..])
    ensures r == Encoded && ended ==> BinsDrawn(s, l, c, search, keys, pp[..], traces, rand)
    ensures BinsPeel(l, c, keys) ==> r == Encoded
  {
    hide *;
    SolvableFacts(s, l, c, keys, x, rand, search);
    FieldIsRing(s);
    r, ended, traces := SolveBins(s, l, c, keys, x, schedule, rand, search, pp);
    if r == Encoded && ended {
      var output := pp[..];
      ghost var before := values[..];
      DecodeBatch(s, l, keys, output, false, values);
      DecodedKeys(s, l, keys, output, before, values[..]);
      AllBinsDone(s, l, c, search, keys, x, output, traces, rand, values[..]);
      BinsMakeAll(s, l, c, keys, x, traces, rand, values[..]);
      AllBinsDrawn(s, l, c, search, keys, x, output, traces, rand);
    }
  }

  /** The threads' part: they take their steps in the order of the schedule. */
  method SolveBins<V(!new)>(
    s: Space<Block, V>, l: Layout, c: Config, keys: seq<Block>, x: seq<V>, schedule: seq<nat>,
    rand: Option<seq<Randomness<Block, V>>>, search: Search, pp: array<V>)
    returns (r: Status, ended: bool, ghost traces: seq<Trace>)
    requires Solvable(s, l, c, keys, x, rand, search) && pp.Length == l.Size()
    modifies pp
    ensures r == Encoded ==> (ended <==> Ended(Threads.Run(c, schedule)))
    ensures r == Encoded && ended ==> BinsDone(s, l, c, search, keys, x, pp[..], traces, rand)
    ensures BinsPeel(l, c, keys) ==> r == Encoded
  {
    hide Solvable, NoOverflow, Threads.Run, ArrayRun, Inv, Mirrors, BinDone, Init, Layout.Valid, BinsPeel;
    SolvableFacts(s, l, c, keys, x, rand, search);
    var solve := new ParSolve(s, l, c, keys, x, rand, search, pp);
    solve.Run(schedule);
    r, ended, traces := solve.status, false, solve.traces;
    if r == Encoded {
      ended := AllFinished(solve.phase);
      solve.ValidFacts();
      if ended {
        EndedAllSolved(c, schedule);
      }
    }
  }

  method AllFinished(phase: seq<Phase>) returns (ended: bool)
    ensures ended <==> forall t :: 0 <= t < |phase| ==> phase[t].Finished?
  {
    for t := 0 to |phase|
      invariant forall u :: 0 <= u < t ==> phase[u].Finished?
    {
      if !phase[t].Finished? {
        return false;
      }
    }
    return true;
  }

  lemma EndedAllSolved(c: Config, schedule: seq<nat>)
    requires c.Valid() && NoOverflow(c) && Ended(Threads.Run(c, schedule))
    ensures forall b :: 0 <= b < c.numBins ==> Threads.Run(c, schedule).solved[b].Some?
  {
    hide NoOverflow, Threads.Run, Items;
    RunSolvesBins(c, schedule);
  }
}
