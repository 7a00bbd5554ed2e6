/** Encoding and decoding with powers of the dense hash. */
module PaxosGf128 {
  import opened Wrappers
  import opened Algebra
  import opened WeightSets
  import opened SparseMatrix
  import opened Peeling
  import opened LeastWeight
  import opened FCInverse
  import opened FreeDraws
  import opened Twins
  import opened Gf128
  import opened Elimination
  import opened Okvs
  import opened Backfill
  import opened PaxosCore

  /** How an encoding ends: normally, or with one of the throws of the source. */
  datatype Status = Encoded | TooFewColumns | WrongSize | NoFreeColumn | Duplicates | TooManyGaps | NotInvertible

  ghost function SystemOf<F, V>(s: Space<F, V>, paxos: Paxos<F>): (sys: System<F>)
    reads paxos
  {
    System(paxos.rows, AllPowers(s, paxos.dense, paxos.param.denseSize), paxos.param.sparseSize, paxos.param.denseSize)
  }

  lemma SystemValid<F, V>(s: Space<F, V>, paxos: Paxos<F>)
    requires paxos.HasMatrix()
    ensures SystemOf(s, paxos).Valid()
  {
  }

  /** Draws a value for every column that is left in the structure, following its list. */
  method RandomizeFree<V>(weightSets: WeightData, p: array<V>, values: seq<V>)
    requires weightSets.Valid() && weightSets.live != {} && |weightSets.weightSets| <= 1
    requires forall c :: c in weightSets.live ==> c < |values| <= p.Length
    requires p as object != weightSets.nodes
    modifies p
    ensures forall c :: 0 <= c < p.Length ==> p[c] == if c in weightSets.live then values[c] else old(p[c])
  {
    hide Linked, Trimmed, IsBucket;
    OneBucket(weightSets.nodes[..], weightSets.weightSets, weightSets.lists, weightSets.live);
    ghost var l := weightSets.lists[0];
    BucketNode(weightSets.nodes[..], weightSets.weightSets[0], 0, l, 0);
    var node := weightSets.weightSets[0];
    ghost var k := 0;
    while node != NULL_NODE
      invariant 0 <= k <= |l| && node == (if k < |l| then l[k] else NULL_NODE)
      invariant forall c :: c in l[..k] ==> c < |values|
      invariant forall c :: 0 <= c < p.Length ==> p[c] == if c in l[..k] then values[c] else old(p[c])
      decreases |l| - k
    {
      assert l[k] in l;
      BucketNode(weightSets.nodes[..], weightSets.weightSets[0], 0, l, k);
      assert l[..k + 1] == l[..k] + [l[k]];
      p[node] := values[node];
      node := weightSets.nodes[node].next;
      k := k + 1;
    }
    assert l[..|l|] == l;
  }

  lemma OneBucket(nodes: seq<WeightNode>, heads: seq<int>, lists: seq<seq<nat>>, live: set<nat>)
    requires Linked(nodes, heads, lists, live) && live != {} && |heads| <= 1
    ensures |heads| == |lists| == 1 && IsBucket(nodes, heads[0], 0, lists[0])
    ensures forall c :: c in live <==> c in lists[0]
  {
    hide IsBucket;
    LastBucket(nodes, heads, lists, live);
    forall c | c in lists[0]
      ensures c in live
    {
    }
  }

  lemma BucketNode(nodes: seq<WeightNode>, head: int, w: nat, l: seq<nat>, k: nat)
    requires IsBucket(nodes, head, w, l)
    ensures head == if |l| == 0 then NULL_NODE else l[0]
    ensures k < |l| ==> l[k] < |nodes| && nodes[l[k]].next == NextOf(l, k)
    ensures Distinct(l)
  {
    if k < |l| {
      assert nodes[l[k]] == WeightNode(w, PrevOf(l, k), NextOf(l, k));
    }
  }

  /** Assigns the main columns in reverse order of peeling. */
  method BackSubstitute<F(==, !new), V(!new)>(
    s: Space<F, V>, paxos: Paxos<F>, t: Triangle, x: seq<V>, p: array<V>, doDense: bool)
    requires Laws(s) && paxos.HasMatrix() && |x| == paxos.numItems && paxos.param.denseSize >= 1
    requires Triangular(paxos.rows, t.mainRows, t.mainCols)
    requires Distinct(t.mainCols) && InRange(t.mainCols, paxos.param.sparseSize)
    requires p.Length == paxos.param.Size() && forall j :: 0 <= j < |t.mainCols| ==> p[t.mainCols[j]] == s.vzero
    requires !doDense ==> forall q :: paxos.param.sparseSize <= q < p.Length ==> p[q] == s.vzero
    modifies p
    ensures SystemOf(s, paxos).Valid()
    ensures Substituted(s, SystemOf(s, paxos), t, p[..], x, |t.mainRows|)
    ensures forall c :: 0 <= c < p.Length && c !in t.mainCols ==> p[c] == old(p[c])
  {
    hide Laws, Triangular, GoodRows, Substituted, RowValue;
    SystemValid(s, paxos);
    ghost var sys := SystemOf(s, paxos);
    TriangleShape(paxos.rows, t);
    SubstituteStart(s, sys, t, p[..], x);
    var m := |t.mainRows|;
    for k := 0 to m
      invariant Substituted(s, sys, t, p[..], x, k)
      invariant forall c :: 0 <= c < p.Length && c !in t.mainCols ==> p[c] == old(p[c])
    {
      var i := t.mainRows[m - 1 - k];
      var c := t.mainCols[m - 1 - k];
      var y := Missing(s, paxos.rows[i], paxos.dense[i], x[i], p, paxos.param.sparseSize, paxos.param.denseSize,
        doDense);
      SubstituteStep(s, sys, t, p[..], x, k, y);
      ghost var before := p[..];
      p[c] := y;
      assert p[..] == before[c := y];
      assert c in t.mainCols;
    }
  }

  lemma TriangleShape(rows: seq<seq<nat>>, t: Triangle)
    requires Triangular(rows, t.mainRows, t.mainCols)
    ensures |t.mainRows| == |t.mainCols|
    ensures forall k :: 0 <= k < |t.mainRows| ==> t.mainRows[k] < |rows|
  {
  }

  lemma SubstituteStart<F, V>(s: Space<F, V>, sys: System<F>, t: Triangle, p: seq<V>, x: seq<V>)
    requires sys.Valid() && |p| == sys.sparse + sys.denseSize && |x| == |sys.rows|
    requires Triangular(sys.rows, t.mainRows, t.mainCols) && InRange(t.mainCols, sys.sparse)
    requires forall j :: 0 <= j < |t.mainCols| ==> p[t.mainCols[j]] == s.vzero
    ensures Substituted(s, sys, t, p, x, 0)
  {
  }

  /** Main rows decode to their values; a gap row does so up to the columns on which its sparse part does not cancel. */
  ghost predicate DecodesUpTo<F, V>(
    s: Space<F, V>, sys: System<F>, t: Triangle, fcinv: seq<seq<nat>>, p: seq<V>, x: seq<V>)
  {
    && sys.Valid() && |p| == sys.sparse + sys.denseSize && |x| == |sys.rows|
    && (forall k :: 0 <= k < |t.mainRows| ==> MainDecodes(s, sys, t.mainRows[k], p, x))
    && |fcinv| == |t.gapRows|
    && (forall i :: 0 <= i < |t.gapRows| ==> GapDecodes(s, sys, t.gapRows[i].0, fcinv[i], p, x))
  }

  ghost predicate MainDecodes<F, V>(s: Space<F, V>, sys: System<F>, r: nat, p: seq<V>, x: seq<V>)
    requires sys.Valid() && |p| == sys.sparse + sys.denseSize && |x| == |sys.rows|
  {
    r < |sys.rows| && sys.Value(s, p, r) == x[r]
  }

  ghost predicate GapDecodes<F, V>(s: Space<F, V>, sys: System<F>, r: nat, added: seq<nat>, p: seq<V>, x: seq<V>)
    requires sys.Valid() && |p| == sys.sparse + sys.denseSize && |x| == |sys.rows|
  {
    && r < |sys.rows| && InRange(added, |sys.rows|)
    && sys.Value(s, p, r) == s.xor(x[r], MaskSum(s, Residual(sys.rows, r, added), p, |p|))
  }

  /** Solved gaps and substituted main rows together decode. */
  lemma BackfillDecodes<F(!new), V(!new)>(
    s: Space<F, V>, sys: System<F>, t: Triangle, fcinv: seq<seq<nat>>, p: seq<V>, x: seq<V>)
    requires Laws(s) && sys.Valid() && |p| == sys.sparse + sys.denseSize && |x| == |sys.rows|
    requires Triangular(sys.rows, t.mainRows, t.mainCols) && InRange(t.mainCols, sys.sparse)
    requires Substituted(s, sys, t, p, x, |t.mainRows|)
    requires ClearsGaps(sys.rows, t.mainRows, t.mainCols, t.gapRows, fcinv) && GapsFit(t.gapRows, fcinv, |sys.rows|)
    requires GapsSolved(s, sys.coefs, x, t.gapRows, fcinv, sys.denseSize, p[sys.sparse..])
    ensures DecodesUpTo(s, sys, t, fcinv, p, x)
  {
    hide Laws, RowValue, MaskSum, Gathered, CombinedRow;
    forall i | 0 <= i < |t.gapRows|
      ensures GapDecodes(s, sys, t.gapRows[i].0, fcinv[i], p, x)
    {
      assert ClearsGap(sys.rows, t.mainRows, t.mainCols, t.gapRows[i].0, fcinv[i]);
      forall q | q in fcinv[i]
        ensures sys.Value(s, p, q) == x[q]
      {
        assert q in t.mainRows;
      }
      GapValue(s, sys, p, x, t.gapRows[i].0, fcinv[i]);
    }
  }

  lemma GapsAreRows(rows: seq<seq<nat>>, t: Triangle, fcinv: seq<seq<nat>>)
    requires ClearsGaps(rows, t.mainRows, t.mainCols, t.gapRows, fcinv)
    ensures GapsFit(t.gapRows, fcinv, |rows|)
  {
    forall i | 0 <= i < |t.gapRows|
      ensures t.gapRows[i].0 < |rows| && InRange(fcinv[i], |rows|)
    {
      assert ClearsGap(rows, t.mainRows, t.mainCols, t.gapRows[i].0, fcinv[i]);
    }
  }

  /** The elimination finds no inverse of the gap matrix. */
  ghost predicate NoInverse<F, V>(
    s: Space<F, V>, dense: seq<F>, gapRows: seq<(nat, nat)>, fcinv: seq<seq<nat>>, d: nat,
    rand: Option<Randomness<F, V>>)
    requires rand.Some? ==> rand.value.Fits(|rand.value.sparse|, d)
  {
    && GapsFit(gapRows, fcinv, |dense|) && 0 < |gapRows| <= d
    && InverseOf(s, GapMatrix(s, dense, gapRows, fcinv, d, Unknowns(|gapRows|, d, rand), rand)).None?
  }

  lemma GapsOfInverse<F, V>(
    s: Space<F, V>, dense: seq<F>, gapRows: seq<(nat, nat)>, fcinv: seq<seq<nat>>, d: nat,
    rand: Option<Randomness<F, V>>)
    requires rand.Some? ==> rand.value.Fits(|rand.value.sparse|, d)
    ensures gapRows == [] ==> !NoInverse(s, dense, gapRows, fcinv, d, rand)
  {}

  /** Twins among the gap rows leave no inverse. */
  lemma TwinsHaveNoInverse<F(!new), V(!new)>(
    s: Space<F, V>, rows: seq<seq<nat>>, dense: seq<F>, size: nat, t: Triangle, fcinv: seq<seq<nat>>, d: nat,
    rand: Option<Randomness<F, V>>, v: V)
    requires FieldLaws(s) && v != s.vzero && Triangulated(rows, dense, size, t) && HasTwins(rows, dense)
    requires ClearsGaps(rows, t.mainRows, t.mainCols, t.gapRows, fcinv) && |t.gapRows| <= d
    requires rand.Some? ==> rand.value.Fits(|rand.value.sparse|, d)
    ensures NoInverse(s, dense, t.gapRows, fcinv, d, rand)
  {
    hide Laws, Triangular, GapRows, SplitsRows, ClearsGap, Combined, Eliminate, Below, Distinct;
    FieldIsRing(s);
    var i, j :| 0 <= i < j < |rows| && AreTwins(rows, dense, i, j);
    NotMain(rows, dense, size, t, i, j);
    NotMain(rows, dense, size, t, j, i);
    var a := GapOf(t, |rows|, i);
    var b := GapOf(t, |rows|, j);
    GapsAreRows(rows, t, fcinv);
    var n := Unknowns(|t.gapRows|, d, rand);
    var m := GapMatrix(s, dense, t.gapRows, fcinv, d, n, rand);
    TwinsShareRow(s, rows, dense, t, fcinv, d, n, a, b);
    assert m[a] == m[b];
    if InverseOf(s, m).Some? {
      InverseShape(s, m);
      var p, x := EqualRows(s, m, InverseOf(s, m).value, n, a, b, v);
      InverseSound(s, m, p, x);
    }
  }

  lemma InverseShape<F(!new), V(!new)>(s: Space<F, V>, m: seq<seq<F>>)
    requires FieldLaws(s) && Square(m, |m|) && InverseOf(s, m).Some?
    ensures Square(InverseOf(s, m).value, |m|)
  {
    hide Laws, Eliminate;
    var x := seq(|m|, _ => s.vzero);
    InverseSound(s, m, x, x);
  }

  /** The rows of twins in the gap system are equal. */
  lemma TwinsShareRow<F(!new), V(!new)>(
    s: Space<F, V>, rows: seq<seq<nat>>, dense: seq<F>, t: Triangle, fcinv: seq<seq<nat>>, d: nat, n: nat, a: nat,
    b: nat)
    requires Laws(s) && |dense| == |rows| && n <= d && Triangular(rows, t.mainRows, t.mainCols)
    requires ClearsGaps(rows, t.mainRows, t.mainCols, t.gapRows, fcinv) && GapsFit(t.gapRows, fcinv, |rows|)
    requires a < |t.gapRows| && b < |t.gapRows| && AreTwins(rows, dense, t.gapRows[a].0, t.gapRows[b].0)
    ensures Backfill.GapRow(s, dense, t.gapRows[a].0, fcinv[a], d, n) ==
      Backfill.GapRow(s, dense, t.gapRows[b].0, fcinv[b], d, n)
  {
    hide XorLaws, Triangular, ClearsGap, Combined, Pow;
    forall k | 0 <= k < n
      ensures Combined(s, AllPowers(s, dense, d), t.gapRows[a].0, fcinv[a], k) ==
        Combined(s, AllPowers(s, dense, d), t.gapRows[b].0, fcinv[b], k)
    {
      TwinsCombine(s, rows, AllPowers(s, dense, d), t.mainRows, t.mainCols, t.gapRows[a].0, t.gapRows[b].0,
                   fcinv[a], fcinv[b], k);
    }
  }

  /** Draws every dense column. */
  method DrawDense<V>(p: array<V>, sparse: nat, values: seq<V>)
    requires p.Length == sparse + |values|
    modifies p
    ensures p[..sparse] == old(p[..sparse]) && p[sparse..] == values
  {
    for i := 0 to |values|
      invariant p[..sparse] == old(p[..sparse])
      invariant forall c :: sparse <= c < sparse + i ==> p[c] == values[c - sparse]
    {
      p[sparse + i] := values[i];
    }
  }

  /** Assigns the output of a triangulated system. */
  method BackfillGf128<F(==, !new), V(!new)>(
    s: Space<F, V>, paxos: Paxos<F>, t: Triangle, x: seq<V>, p: array<V>, rand: Option<Randomness<F, V>>)
    returns (r: Status, ghost fcinv: seq<seq<nat>>)
    requires FieldLaws(s) && paxos.HasMatrix() && |x| == paxos.numItems && paxos.param.denseSize >= 1
    requires Triangulated(paxos.rows, paxos.dense, paxos.param.sparseSize, t)
    requires p.Length == paxos.param.Size()
    requires forall c :: 0 <= c < p.Length && (c in t.mainCols || c >= paxos.param.sparseSize) ==> p[c] == s.vzero
    requires rand.Some? ==> rand.value.Fits(paxos.param.sparseSize, paxos.param.denseSize)
    modifies p
    ensures r == Encoded || r == TooManyGaps || r == NotInvertible
    ensures SystemOf(s, paxos).Valid()
    ensures r == TooManyGaps <==> |t.gapRows| > paxos.param.denseSize
    ensures r != TooManyGaps ==> ClearsGaps(paxos.rows, t.mainRows, t.mainCols, t.gapRows, fcinv)
    ensures r != TooManyGaps ==> TakesShortcuts(paxos.rows, t, fcinv)
    ensures r == NotInvertible <==> NoInverse(s, paxos.dense, t.gapRows, fcinv, paxos.param.denseSize, rand)
    ensures r == Encoded ==> DecodesUpTo(s, SystemOf(s, paxos), t, fcinv, p[..], x)
    ensures r == Encoded ==> forall c :: 0 <= c < paxos.param.sparseSize && c !in t.mainCols ==> p[c] == old(p[c])
    ensures r == Encoded ==>
      DenseDrawn(s, |t.gapRows|, paxos.param.denseSize, rand, p[..][paxos.param.sparseSize..])
  {
    hide FieldLaws, Laws, Triangular, GapRows, SplitsRows, GoodRows, Substituted, DecodesUpTo, GapsSolved,
      ClearsGaps, GapsFit, Eliminate, Powers, TakesShortcut, Below;
    FieldIsRing(s);
    SystemValid(s, paxos);
    TriangleShape(paxos.rows, t);
    MainColsInRange(t.mainCols, paxos.param.sparseSize);
    GoodShape(paxos.rows, paxos.param.weight, paxos.param.sparseSize);
    ghost var sys := SystemOf(s, paxos);
    fcinv := [];
    if |t.gapRows| > paxos.param.denseSize {
      return TooManyGaps, fcinv;
    }
    var sparse, d := paxos.param.sparseSize, paxos.param.denseSize;
    if |t.gapRows| > 0 {
      var added := GetFCInv(paxos.rows, paxos.dense, sparse, t);
      fcinv := added;
      GapsAreRows(paxos.rows, t, added);
      var ok := SolveDense(s, paxos.dense, x, t.gapRows, added, sparse, d, rand, p);
      if !ok {
        return NotInvertible, fcinv;
      }
    } else {
      NoGaps(s, sys, t, x, p[sparse..]);
      if rand.Some? {
        DrawDense(p, sparse, rand.value.dense);
        NoGaps(s, sys, t, x, p[sparse..]);
      }
      assert DenseDrawn(s, 0, d, rand, p[sparse..]);
    }
    ghost var dense := p[..];
    assert forall c :: 0 <= c < sparse ==> dense[c] == dense[..sparse][c];
    BackSubstitute(s, paxos, t, x, p, |t.gapRows| > 0 || rand.Some?);
    assert p[sparse..] == dense[sparse..] == p[..][sparse..];
    GapsAreRows(paxos.rows, t, fcinv);
    BackfillDecodes(s, sys, t, fcinv, p[..], x);
    return Encoded, fcinv;
  }

  lemma GoodShape(rows: seq<seq<nat>>, weight: nat, size: nat)
    requires GoodRows(rows, weight, size)
    ensures forall q :: 0 <= q < |rows| ==> Distinct(rows[q]) && InRange(rows[q], size)
  {
  }

  lemma NoGaps<F, V>(s: Space<F, V>, sys: System<F>, t: Triangle, x: seq<V>, p2: seq<V>)
    requires sys.Valid() && |x| == |sys.rows| && |p2| == sys.denseSize && t.gapRows == []
    ensures ClearsGaps(sys.rows, t.mainRows, t.mainCols, t.gapRows, []) && GapsFit(t.gapRows, [], |sys.rows|)
    ensures GapsSolved(s, sys.coefs, x, t.gapRows, [], sys.denseSize, p2)
  {
  }

  /** The outcome of the peeling as a status of the encoding. */
  function StatusOf(o: Outcome): Status {
    match o
    case Done => Encoded
    case NoColumn => NoFreeColumn
    case DuplicateKeys => Duplicates
  }

  /** Every row decodes to its value. */
  ghost predicate AllDecode<F, V>(s: Space<F, V>, sys: System<F>, p: seq<V>, x: seq<V>) {
    && sys.Valid() && |p| == sys.sparse + sys.denseSize && |x| == |sys.rows|
    && forall r :: 0 <= r < |sys.rows| ==> sys.Value(s, p, r) == x[r]
  }

  /** The sparse part of every gap row cancels against its main rows, or at least sums to zero. */
  ghost predicate GapsCancel<F, V>(s: Space<F, V>, sys: System<F>, t: Triangle, fcinv: seq<seq<nat>>, p: seq<V>) {
    && GapsFit(t.gapRows, fcinv, |sys.rows|)
    && forall i :: 0 <= i < |t.gapRows| ==> MaskSum(s, Residual(sys.rows, t.gapRows[i].0, fcinv[i]), p, |p|) == s.vzero
  }

  /** The rows that are solved decide: all rows decode exactly when the remainders of the gap rows sum to zero. */
  lemma DecodesIffCancels<F(!new), V(!new)>(
    s: Space<F, V>, sys: System<F>, t: Triangle, fcinv: seq<seq<nat>>, p: seq<V>, x: seq<V>)
    requires Laws(s) && sys.Valid() && |p| == sys.sparse + sys.denseSize && |x| == |sys.rows|
    requires SplitsRows(t.mainRows, t.gapRows, Below(|sys.rows|))
    requires DecodesUpTo(s, sys, t, fcinv, p, x) && GapsFit(t.gapRows, fcinv, |sys.rows|)
    ensures AllDecode(s, sys, p, x) <==> GapsCancel(s, sys, t, fcinv, p)
  {
    hide Laws, RowValue, MaskSum, Residual;
    forall i | 0 <= i < |t.gapRows|
      ensures sys.Value(s, p, t.gapRows[i].0) == x[t.gapRows[i].0] <==>
        MaskSum(s, Residual(sys.rows, t.gapRows[i].0, fcinv[i]), p, |p|) == s.vzero
    {
      GapDecodesIff(s, sys, t.gapRows[i].0, fcinv[i], p, x);
    }
    if GapsCancel(s, sys, t, fcinv, p) {
      forall r | 0 <= r < |sys.rows|
        ensures sys.Value(s, p, r) == x[r]
      {
        if r in t.mainRows {
          assert MainDecodes(s, sys, r, p, x);
        } else {
          RowIsGap(t, |sys.rows|, r);
        }
      }
    }
  }

  lemma RowIsGap(t: Triangle, n: nat, r: nat)
    requires SplitsRows(t.mainRows, t.gapRows, Below(n)) && r < n && r !in t.mainRows
    ensures exists i :: 0 <= i < |t.gapRows| && t.gapRows[i].0 == r
  {
    assert r in Entries(t.mainRows + Firsts(t.gapRows));
    var k :| 0 <= k < |Firsts(t.gapRows)| && Firsts(t.gapRows)[k] == r;
  }

  lemma GapDecodesIff<F(!new), V(!new)>(
    s: Space<F, V>, sys: System<F>, r: nat, added: seq<nat>, p: seq<V>, x: seq<V>)
    requires Laws(s) && sys.Valid() && |p| == sys.sparse + sys.denseSize && |x| == |sys.rows|
    requires GapDecodes(s, sys, r, added, p, x)
    ensures sys.Value(s, p, r) == x[r] <==> MaskSum(s, Residual(sys.rows, r, added), p, |p|) == s.vzero
  {
    hide XorLaws, RowValue, MaskSum, Residual;
    var v, m := x[r], MaskSum(s, Residual(sys.rows, r, added), p, |p|);
    XorZero(s.vzero, s.xor, v);
    XorMove(s.vzero, s.xor, m, v, v);
    XorComm(s.vzero, s.xor, m, v);
  }

  /** All rows decode exactly when the values in the free columns cancel on what remains of every gap row. */
  lemma DecodesIffDrawCancels<F(!new), V(!new)>(
    s: Space<F, V>, sys: System<F>, t: Triangle, fcinv: seq<seq<nat>>, p: seq<V>, values: seq<V>)
    requires Laws(s) && sys.Valid() && |p| == sys.sparse + sys.denseSize && |values| == sys.sparse
    requires ClearsGaps(sys.rows, t.mainRows, t.mainCols, t.gapRows, fcinv) && GapsFit(t.gapRows, fcinv, |sys.rows|)
    requires forall c :: 0 <= c < sys.sparse && c !in t.mainCols ==> p[c] == values[c]
    ensures GapsCancel(s, sys, t, fcinv, p) <==> DrawCancels(s, sys.rows, t, fcinv, values)
  {
    hide Laws, MaskSum, Residual, ClearsGap;
    forall i | 0 <= i < |t.gapRows|
      ensures MaskSum(s, Residual(sys.rows, t.gapRows[i].0, fcinv[i]), p, |p|) ==
        MaskSum(s, Residual(sys.rows, t.gapRows[i].0, fcinv[i]), values, |values|)
    {
      DrawnSum(s, sys.rows, t, t.gapRows[i].0, fcinv[i], p, values);
    }
    assert GapsCancel(s, sys, t, fcinv, p) ==> forall i :: 0 <= i < |t.gapRows| ==>
      RowCancels(s, sys.rows, t.gapRows[i].0, fcinv[i], values);
  }

  /** With zeroes in every sparse column that is not a main column, the gap rows cancel. */
  lemma ZeroesCancel<F(!new), V(!new)>(
    s: Space<F, V>, sys: System<F>, t: Triangle, fcinv: seq<seq<nat>>, p: seq<V>)
    requires Laws(s) && sys.Valid() && |p| == sys.sparse + sys.denseSize
    requires ClearsGaps(sys.rows, t.mainRows, t.mainCols, t.gapRows, fcinv) && GapsFit(t.gapRows, fcinv, |sys.rows|)
    requires forall c :: 0 <= c < sys.sparse && c !in t.mainCols ==> p[c] == s.vzero
    ensures GapsCancel(s, sys, t, fcinv, p)
  {
    hide Laws, MaskSum;
    forall i | 0 <= i < |t.gapRows|
      ensures MaskSum(s, Residual(sys.rows, t.gapRows[i].0, fcinv[i]), p, |p|) == s.vzero
    {
      assert ClearsGap(sys.rows, t.mainRows, t.mainCols, t.gapRows[i].0, fcinv[i]);
      var support := Residual(sys.rows, t.gapRows[i].0, fcinv[i]);
      ResidualRange(sys.rows, t.gapRows[i].0, fcinv[i], sys.sparse);
      forall c | c in support && c < |p|
        ensures p[c] == s.vzero
      {
        assert c !in Entries(t.mainCols);
      }
      MaskSumZero(s, support, p, |p|);
    }
  }

  ghost predicate TakesShortcuts(rows: seq<seq<nat>>, t: Triangle, fcinv: seq<seq<nat>>) {
    |fcinv| == |t.gapRows| && forall i :: 0 <= i < |fcinv| ==> TakesShortcut(rows, t.gapRows[i], fcinv[i])
  }

  /** Every gap row repeats the sparse row of a main row: what the randomised encoding assumes. */
  ghost predicate OnlyDuplicates(rows: seq<seq<nat>>, t: Triangle) {
    forall i :: 0 <= i < |t.gapRows| ==>
      t.gapRows[i].0 < |rows| && t.gapRows[i].1 < |rows| && rows[t.gapRows[i].0] == rows[t.gapRows[i].1]
  }

  /** A duplicate sparse row cancels whatever the columns hold. */
  lemma ShortcutsCancel<F(!new), V(!new)>(
    s: Space<F, V>, sys: System<F>, t: Triangle, fcinv: seq<seq<nat>>, p: seq<V>)
    requires Laws(s) && sys.Valid() && |p| == sys.sparse + sys.denseSize
    requires ClearsGaps(sys.rows, t.mainRows, t.mainCols, t.gapRows, fcinv) && GapsFit(t.gapRows, fcinv, |sys.rows|)
    requires TakesShortcuts(sys.rows, t, fcinv) && OnlyDuplicates(sys.rows, t)
    ensures GapsCancel(s, sys, t, fcinv, p)
  {
    hide Laws, MaskSum;
    forall i | 0 <= i < |t.gapRows|
      ensures MaskSum(s, Residual(sys.rows, t.gapRows[i].0, fcinv[i]), p, |p|) == s.vzero
    {
      assert ClearsGap(sys.rows, t.mainRows, t.mainCols, t.gapRows[i].0, fcinv[i]);
      assert TakesShortcut(sys.rows, t.gapRows[i], fcinv[i]);
      assert t.gapRows[i].1 in fcinv[i];
      SameRow(sys.rows, t.mainRows, t.mainCols, t.gapRows[i]);
      MaskSumZero(s, {}, p, |p|);
    }
  }

  method ZeroFill<V>(p: array<V>, zero: V)
    modifies p
    ensures forall c :: 0 <= c < p.Length ==> p[c] == zero
  {
    for i := 0 to p.Length
      invariant forall c :: 0 <= c < i ==> p[c] == zero
    {
      p[i] := zero;
    }
  }

  lemma EncodeDecodes<F(!new), V(!new), H>(
    s: Space<F, V>, sys: System<F>, dense: seq<H>, t: Triangle, fcinv: seq<seq<nat>>, p: seq<V>, x: seq<V>,
    values: Option<seq<V>>)
    requires FieldLaws(s) && sys.Valid() && |p| == sys.sparse + sys.denseSize && |x| == |sys.rows|
    requires Triangulated(sys.rows, dense, sys.sparse, t)
    requires ClearsGaps(sys.rows, t.mainRows, t.mainCols, t.gapRows, fcinv)
    requires DecodesUpTo(s, sys, t, fcinv, p, x) && TakesShortcuts(sys.rows, t, fcinv)
    requires values.Some? ==> |values.value| == sys.sparse
    requires forall c :: 0 <= c < sys.sparse && c !in t.mainCols ==>
      p[c] == if values.Some? then values.value[c] else s.vzero
    ensures values.None? || OnlyDuplicates(sys.rows, t) ==> AllDecode(s, sys, p, x)
    ensures values.Some? ==> (AllDecode(s, sys, p, x) <==> DrawCancels(s, sys.rows, t, fcinv, values.value))
  {
    hide Laws, ClearsGaps, GapsFit, DecodesUpTo, AllDecode, GapsCancel, TakesShortcuts, OnlyDuplicates, DrawCancels;
    GapsAreRows(sys.rows, t, fcinv);
    DecodesIffCancels(s, sys, t, fcinv, p, x);
    if OnlyDuplicates(sys.rows, t) {
      ShortcutsCancel(s, sys, t, fcinv, p);
    }
    if values.None? {
      ZeroesCancel(s, sys, t, fcinv, p);
    } else {
      DecodesIffDrawCancels(s, sys, t, fcinv, p, values.value);
    }
  }

  lemma FreeColumns(size: nat, mainCols: seq<nat>)
    ensures forall c :: c in Below(size) - Entries(mainCols) <==> 0 <= c < size && c !in mainCols
  {}

  /** Encodes the values: triangulate, clear the output, draw the free columns if asked to, and assign the rest. */
  method Encode<F(==, !new), V(!new)>(
    s: Space<F, V>, paxos: Paxos<F>, x: seq<V>, p: array<V>, rand: Option<Randomness<F, V>>)
    returns (r: Status, ghost t: Triangle, ghost fcinv: seq<seq<nat>>)
    requires FieldLaws(s) && paxos.HasMatrix() && paxos.HasColumns() && paxos.WeightsFit()
    requires paxos.Ready() || (paxos.weightSets.Valid() && |paxos.weightSets.weightSets| <= 1)
    requires |x| == paxos.numItems && paxos.param.denseSize >= 1
    requires rand.Some? ==> rand.value.Fits(paxos.param.sparseSize, paxos.param.denseSize)
    requires p as object != paxos.weightSets.nodes && p as object != paxos.colBacking
    modifies p, paxos.weightSets, paxos.weightSets.nodes
    ensures r != TooFewColumns && (r == WrongSize <==> p.Length != paxos.param.Size())
    ensures r == NoFreeColumn <==> p.Length == paxos.param.Size() && paxos.param.sparseSize == 0
    ensures r == Duplicates ==> HasDuplicates(paxos.dense)
    ensures r == Encoded && HasNonZero(s.vzero) ==> !HasTwins(paxos.rows, paxos.dense)
    ensures r in {Encoded, TooManyGaps, NotInvertible} ==>
      Triangulated(paxos.rows, paxos.dense, paxos.param.sparseSize, t) &&
      LeastFirst(paxos.rows, paxos.param.sparseSize, t.mainCols) && t == TriangleOf(paxos.rows, t.mainCols) &&
      (t.gapRows == [] <==> Peelable(paxos.rows)) && (r == TooManyGaps <==> |t.gapRows| > paxos.param.denseSize)
    ensures Peelable(paxos.rows) ==> r in {Encoded, WrongSize, NoFreeColumn}
    ensures r in {Encoded, NotInvertible} ==>
      ClearsGaps(paxos.rows, t.mainRows, t.mainCols, t.gapRows, fcinv) && TakesShortcuts(paxos.rows, t, fcinv) &&
      (r == NotInvertible <==> NoInverse(s, paxos.dense, t.gapRows, fcinv, paxos.param.denseSize, rand))
    ensures r == Encoded ==> DecodesUpTo(s, SystemOf(s, paxos), t, fcinv, p[..], x)
    ensures r == Encoded && (rand.None? || OnlyDuplicates(paxos.rows, t)) ==> AllDecode(s, SystemOf(s, paxos), p[..], x)
    ensures r == Encoded && rand.Some? ==>
      (AllDecode(s, SystemOf(s, paxos), p[..], x) <==> DrawCancels(s, paxos.rows, t, fcinv, rand.value.sparse))
    ensures r == Encoded ==> forall c :: 0 <= c < paxos.param.sparseSize && c !in t.mainCols ==>
      p[c] == if rand.Some? then rand.value.sparse[c] else s.vzero
    ensures r == Encoded ==>
      DenseDrawn(s, |t.gapRows|, paxos.param.denseSize, rand, p[..][paxos.param.sparseSize..])
  {
    hide FieldLaws, Laws, GoodRows, Triangulated, DecodesUpTo, AllDecode, DrawCancels, ClearsGaps, GapsFit, NoInverse,
      TakesShortcuts, OnlyDuplicates, Linked, Trimmed, HoldsColumn, ColumnOf, HasTwins, DenseDrawn, LeastFirst,
      TriangleOf, Peelable;
    SystemValid(s, paxos);
    t, fcinv := Triangle([], [], []), [];
    if p.Length != paxos.param.Size() {
      return WrongSize, t, fcinv;
    }
    var peel, triangle := paxos.Triangulate();
    t := triangle;
    if peel != Done {
      return StatusOf(peel), t, fcinv;
    }
    ZeroFill(p, s.vzero);
    ghost var values: Option<seq<V>> := None;
    if rand.Some? {
      RandomizeFree(paxos.weightSets, p, rand.value.sparse);
      values := Some(rand.value.sparse);
    }
    FreeColumns(paxos.param.sparseSize, t.mainCols);
    r, fcinv := BackfillGf128(s, paxos, triangle, x, p, rand);
    GapsOfInverse(s, paxos.dense, t.gapRows, fcinv, paxos.param.denseSize, rand);
    if r == Encoded {
      EncodeDecodes(s, SystemOf(s, paxos), paxos.dense, t, fcinv, p[..], x, values);
      if HasNonZero(s.vzero) && HasTwins(paxos.rows, paxos.dense) {
        ghost var v: V :| At(v, v, v) && v != s.vzero;
        TwinsHaveNoInverse(s, paxos.rows, paxos.dense, paxos.param.sparseSize, t, fcinv, paxos.param.denseSize, rand,
                           v);
        assert false;
      }
    }
  }

  // One gap row.

  /** The sum of the hashes of a gap row and of the rows that clear it. */
  ghost function HashSum<F, V>(s: Space<F, V>, dense: seq<F>, r: nat, added: seq<nat>): F
    requires r < |dense| && InRange(added, |dense|)
  {
    if added == [] then dense[r]
    else s.plus(HashSum(s, dense, r, added[..|added| - 1]), dense[added[|added| - 1]])
  }

  lemma {:induction false} FirstCombined<F(!new), V(!new)>(
    s: Space<F, V>, dense: seq<F>, r: nat, added: seq<nat>, d: nat)
    requires Laws(s) && r < |dense| && InRange(added, |dense|) && d >= 1
    ensures Combined(s, AllPowers(s, dense, d), r, added, 0) == HashSum(s, dense, r, added)
  {
    hide Laws;
    if added == [] {
      PowOne(s, dense[r]);
    } else {
      FirstCombined(s, dense, r, added[..|added| - 1], d);
      PowOne(s, dense[added[|added| - 1]]);
    }
  }

  /** A single gap row without a draw is solved exactly if the hashes of the rows added up do not sum to zero. */
  lemma OneGapExactly<F(!new), V(!new)>(
    s: Space<F, V>, dense: seq<F>, gap: (nat, nat), added: seq<nat>, d: nat)
    requires Laws(s) && gap.0 < |dense| && InRange(added, |dense|) && d >= 1
    ensures NoInverse<F, V>(s, dense, [gap], [added], d, None) <==> HashSum(s, dense, gap.0, added) == s.zero
  {
    hide Laws, Eliminate;
    FirstCombined(s, dense, gap.0, added, d);
    var m := GapMatrix<F, V>(s, dense, [gap], [added], d, 1, None);
    assert m[0] == Backfill.GapRow(s, dense, gap.0, added, d, 1);
    OneEntry(s, m);
  }

  lemma OneEntry<F, V>(s: Space<F, V>, m: seq<seq<F>>)
    requires Square(m, 1)
    ensures InverseOf(s, m).None? <==> m[0][0] == s.zero
  {}

  lemma GapDistinct<H>(
    rows: seq<seq<nat>>, dense: seq<H>, mainRows: seq<nat>, mainCols: seq<nat>, gap: (nat, nat))
    requires |dense| == |rows| && HasMainRow(rows, dense, mainRows, mainCols, gap)
    ensures gap.0 < |dense| && gap.1 < |dense| && dense[gap.0] != dense[gap.1]
  {}

  lemma TwoHashes<F(!new), V(!new)>(s: Space<F, V>, dense: seq<F>, r: nat, q: nat)
    requires Laws(s) && r < |dense| && q < |dense|
    ensures HashSum(s, dense, r, [q]) == s.zero <==> dense[r] == dense[q]
  {
    hide XorLaws;
    assert [q][..0] == [];
    assert HashSum(s, dense, r, []) == dense[r];
    XorMove(s.zero, s.plus, dense[r], dense[q], s.zero);
    XorComm(s.zero, s.plus, s.zero, dense[q]);
    XorZero(s.zero, s.plus, dense[q]);
  }

  /** A single gap row that repeats its main row is always solved: its hash is another one. */
  lemma OneRepeatSolved<F(!new), V(!new)>(
    s: Space<F, V>, rows: seq<seq<nat>>, dense: seq<F>, size: nat, t: Triangle, fcinv: seq<seq<nat>>, d: nat)
    requires Laws(s) && Triangulated(rows, dense, size, t) && |t.gapRows| == 1 && d >= 1
    requires TakesShortcuts(rows, t, fcinv) && OnlyDuplicates(rows, t)
    ensures !NoInverse<F, V>(s, dense, t.gapRows, fcinv, d, None)
  {
    hide Laws, NoInverse, XorLaws, Triangular, SplitsRows, Below, Distinct, HasMainRow;
    var gap := t.gapRows[0];
    assert HasMainRow(rows, dense, t.mainRows, t.mainCols, gap);
    GapDistinct(rows, dense, t.mainRows, t.mainCols, gap);
    assert TakesShortcut(rows, gap, fcinv[0]);
    assert t.gapRows == [gap] && fcinv == [[gap.1]];
    OneGapExactly(s, dense, gap, [gap.1], d);
    TwoHashes(s, dense, gap.0, gap.1);
  }

  // The randomised encoding of three rows, no two of which are equal, with one dense column.

  /** The peeling leaves a gap row of which column 0 remains, and the gap is invertible unless the hashes sum to
      zero. */
  lemma ThreeRowsInvertible<F(!new), V(!new)>(s: Space<F, V>, dense: seq<F>, rand: Randomness<F, V>)
    requires Laws(s) && |dense| == 3 && rand.Fits(4, 1)
    requires s.plus(s.plus(dense[2], dense[1]), dense[0]) != s.zero
    ensures !NoInverse(s, dense, ThreeRowsTriangle().gapRows, [[1, 0]], 1, Some(rand))
  {
    hide Laws, Eliminate;
    var gapRows, fcinv, r: Option<Randomness<F, V>> := ThreeRowsTriangle().gapRows, [[1, 0]], Some(rand);
    if NoInverse(s, dense, gapRows, fcinv, 1, r) {
      var m := GapMatrix(s, dense, gapRows, fcinv, 1, 1, r);
      ThreeRowsCombined(s, dense);
      assert m[0] == Backfill.GapRow(s, dense, 2, [1, 0], 1, 1);
      OneByOne(s, m);
    }
  }

  lemma ThreeRowsCombined<F(!new), V(!new)>(s: Space<F, V>, dense: seq<F>)
    requires Laws(s) && |dense| == 3
    ensures Backfill.GapRow(s, dense, 2, [1, 0], 1, 1) == [s.plus(s.plus(dense[2], dense[1]), dense[0])]
  {
    hide Laws;
    var coefs := AllPowers(s, dense, 1);
    PowOne(s, dense[0]);
    PowOne(s, dense[1]);
    PowOne(s, dense[2]);
    assert [1, 0][..1] == [1] && [1][..0] == [];
    assert Combined(s, coefs, 2, [1], 0) == s.plus(dense[2], dense[1]);
    assert Combined(s, coefs, 2, [1, 0], 0) == s.plus(s.plus(dense[2], dense[1]), dense[0]);
  }

  lemma OneByOne<F, V>(s: Space<F, V>, m: seq<seq<F>>)
    requires Square(m, 1) && m[0][0] != s.zero
    ensures InverseOf(s, m).Some?
  {}
}
