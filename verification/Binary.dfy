/** Encoding and decoding with the bits of the dense hash as dense coefficients. */
module PaxosBinary {
  import opened Wrappers
  import opened Algebra
  import opened WeightSets
  import opened SparseMatrix
  import opened Peeling
  import opened LeastWeight
  import opened FCInverse
  import opened FreeDraws
  import opened Twins
  import opened Gf128
  import opened Elimination
  import opened Okvs
  import opened Backfill
  import opened PaxosCore
  import opened PaxosGf128

  /** The dense hash of a row, the lowest bit first. */
  type Hash = seq<bool>

  /** Coefficients are bits, added by exclusive or, that select or drop a value. */
  ghost predicate BitLaws<V(!new)>(s: Space<bool, V>) {
    && FieldLaws(s) && !s.zero && s.one
    && (forall k: bool, l: bool :: s.plus(k, l) == (k != l))
    && (forall k: bool, a: V :: s.scale(k, a) == if k then a else s.vzero)
  }

  function BitSpace<V>(vzero: V, xor: (V, V) -> V): Space<bool, V> {
    Space(false, true, (k, l) => k != l, (k, l) => k && l, vzero, xor, (k, a) => if k then a else vzero)
  }

  /** The bits under exclusive or and conjunction are a ring. */
  lemma BitRing()
    ensures RingLaws<bool>(false, true, (k, l) => k != l, (k, l) => k && l)
  {}

  /** Any values with an xor can be used. */
  lemma BitSpaceLaws<V(!new)>(vzero: V, xor: (V, V) -> V)
    requires XorLaws(vzero, xor)
    ensures BitLaws(BitSpace(vzero, xor))
  {
    hide Laws, Order;
    var s := BitSpace(vzero, xor);
    BitSpaceIsSpace(vzero, xor);
    TrueOrder(s);
    forall k: bool | k != s.zero
      ensures Order(s, k) == s.one
    {
    }
  }

  lemma BitSpaceIsSpace<V(!new)>(vzero: V, xor: (V, V) -> V)
    requires XorLaws(vzero, xor)
    ensures Laws(BitSpace(vzero, xor))
  {
    hide XorLaws, RingLaws;
    var s := BitSpace(vzero, xor);
    BitRing();
    SameRing(s);
    forall k: bool, l: bool, a: V
      ensures s.scale(s.plus(k, l), a) == s.xor(s.scale(k, a), s.scale(l, a))
    {
      XorZero(vzero, xor, a);
      XorZero(vzero, xor, vzero);
    }
    forall k: bool, a: V, b: V
      ensures s.scale(k, s.xor(a, b)) == s.xor(s.scale(k, a), s.scale(k, b))
    {
      XorZero(vzero, xor, vzero);
    }
  }

  lemma SameRing<V(!new)>(s: Space<bool, V>)
    requires s == BitSpace(s.vzero, s.xor)
    ensures RingLaws(s.zero, s.one, s.plus, s.times)
  {}

  lemma TrueOrder<V>(s: Space<bool, V>)
    requires s.one && s.times(true, true)
    ensures Order(s, true)
  {
    PowTrue(s, Tower(7) - 1);
  }

  lemma {:induction false} PowTrue<V>(s: Space<bool, V>, e: nat)
    requires s.one && s.times(true, true)
    ensures Pow(s, true, e)
  {
    if e > 0 {
      PowTrue(s, e - 1);
    }
  }

  ghost function FirstBits(hash: Hash, d: nat): Hash {
    if d <= |hash| then hash[..d] else hash
  }

  /** The first d bits of every hash. */
  ghost function BitCoefs(dense: seq<Hash>, d: nat): (coefs: seq<seq<bool>>)
    ensures |coefs| == |dense| && forall r :: 0 <= r < |coefs| ==> coefs[r] == FirstBits(dense[r], d)
  {
    seq(|dense|, r requires 0 <= r < |dense| => FirstBits(dense[r], d))
  }

  /** All hashes have the width of a block, which holds the dense columns. */
  ghost predicate Hashed(dense: seq<Hash>, width: nat, d: nat) {
    d <= width && forall r :: 0 <= r < |dense| ==> |dense[r]| == width
  }

  ghost function SystemOfBits(paxos: Paxos<Hash>): (sys: System<bool>)
    reads paxos
  {
    System(paxos.rows, BitCoefs(paxos.dense, paxos.param.denseSize), paxos.param.sparseSize, paxos.param.denseSize)
  }

  function XorHash(a: Hash, b: Hash): (r: Hash)
    requires |a| == |b|
    ensures |r| == |a|
  {
    seq(|a|, k requires 0 <= k < |a| => a[k] != b[k])
  }

  /** The hash of a gap row with the hashes of its main rows xored in. */
  method CombineHashes<V(!new)>(ghost s: Space<bool, V>, dense: seq<Hash>, r: nat, added: seq<nat>, width: nat,
    ghost d: nat)
    returns (e: Hash)
    requires BitLaws(s) && Hashed(dense, width, d) && r < |dense| && InRange(added, |dense|)
    ensures |e| == width && e[..d] == CombinedRow(s, BitCoefs(dense, d), r, added, d)
  {
    hide FieldLaws;
    ghost var coefs := BitCoefs(dense, d);
    e := dense[r];
    assert added[..0] == [];
    for j := 0 to |added|
      invariant |e| == width && InRange(added[..j], |dense|)
      invariant forall k :: 0 <= k < d ==> e[k] == Combined(s, coefs, r, added[..j], k)
    {
      assert added[..j + 1][..j] == added[..j];
      e := XorHash(e, dense[added[j]]);
    }
    assert added[..|added|] == added;
  }

  // The gap columns: dense columns on which the combined gap rows are invertible.

  ghost predicate IsSelection(cols: seq<nat>, g: nat, d: nat) {
    |cols| == g && Distinct(cols) && InRange(cols, d)
  }

  /** The combined coefficients of the gap rows on the selected columns. */
  ghost function GapBits<V>(
    s: Space<bool, V>, dense: seq<Hash>, gapRows: seq<(nat, nat)>, fcinv: seq<seq<nat>>, d: nat, cols: seq<nat>)
    : (m: seq<seq<bool>>)
    requires GapsFit(gapRows, fcinv, |dense|) && IsSelection(cols, |gapRows|, d)
    requires forall r :: 0 <= r < |dense| ==> |dense[r]| >= d
    ensures Square(m, |gapRows|)
  {
    seq(|gapRows|, i requires 0 <= i < |gapRows| => seq(|gapRows|, j requires 0 <= j < |gapRows| =>
      CombinedRow(s, BitCoefs(dense, d), gapRows[i].0, fcinv[i], d)[cols[j]]))
  }

  method BuildGapBits<V(!new)>(
    ghost s: Space<bool, V>, dense: seq<Hash>, gapRows: seq<(nat, nat)>, fcinv: seq<seq<nat>>, width: nat, ghost d: nat,
    cols: seq<nat>) returns (ee: seq<seq<bool>>)
    requires BitLaws(s) && Hashed(dense, width, d) && GapsFit(gapRows, fcinv, |dense|)
    requires IsSelection(cols, |gapRows|, d)
    ensures ee == GapBits(s, dense, gapRows, fcinv, d, cols)
  {
    hide BitLaws, Combined;
    var g := |gapRows|;
    ee := [];
    ghost var goal := GapBits(s, dense, gapRows, fcinv, d, cols);
    for i := 0 to g
      invariant |ee| == i && forall q :: 0 <= q < i ==> ee[q] == goal[q]
    {
      var row := CombineHashes(s, dense, gapRows[i].0, fcinv[i], width, d);
      ee := ee + [seq(g, j requires 0 <= j < g => row[cols[j]])];
      assert ee[i] == goal[i];
    }
  }

  /** What is asked of the bit matrix inversion: it is sound, and gives up only on singular matrices. */
  ghost predicate Inverts<V(!new)>(s: Space<bool, V>, invert: seq<seq<bool>> -> Option<seq<seq<bool>>>) {
    forall m: seq<seq<bool>> :: Square(m, |m|) ==>
      match invert(m)
      case Some(e) => InverseMatrix(s, m, e)
      case None => Singular(s, m, |m|)
  }

  ghost predicate InverseMatrix<V(!new)>(s: Space<bool, V>, m: seq<seq<bool>>, e: seq<seq<bool>>)
    requires Square(m, |m|)
  {
    Square(e, |m|) && forall p: seq<V>, x: seq<V> :: |p| == |x| == |m| ==>
      (IsProduct(s, e, |m|, p, x) <==> IsProduct(s, m, |m|, x, p))
  }

  /** The elimination of this model is such an inversion: over bits no pivot is ever missed. */
  lemma EliminationInverts<V(!new)>(s: Space<bool, V>, v: V, m: seq<seq<bool>>)
    requires BitLaws(s) && v != s.vzero && Square(m, |m|)
    ensures match InverseOf(s, m)
      case Some(e) => InverseMatrix(s, m, e)
      case None => Singular(s, m, |m|)
  {
    hide FieldLaws, Eliminate;
    InverseFails(s, m, v);
    if InverseOf(s, m).Some? {
      var zeroes := seq(|m|, _ => s.vzero);
      InverseSound(s, m, zeroes, zeroes);
      forall p: seq<V>, x: seq<V> | |p| == |x| == |m|
        ensures IsProduct(s, InverseOf(s, m).value, |m|, p, x) <==> IsProduct(s, m, |m|, x, p)
      {
        InverseSound(s, m, p, x);
      }
    } else {
      NoMissedPivot(s, Pair(m, Identity(s, |m|)), |m|, 0);
    }
  }

  lemma {:induction false} NoMissedPivot<V(!new)>(s: Space<bool, V>, a: Pair<bool>, n: nat, i: nat)
    requires BitLaws(s) && IsPair(a, n) && i <= n
    ensures !MissesPivot(s, a, n, i)
    decreases n - i
  {
    if i < n {
      var b := Pivot(s, a, n, i);
      if b.Some? {
        NoMissedPivot(s, Stage(s, b.value, n, i), n, i + 1);
      } else {
        var k := FindOne(s, a, n, i, i + 1);
        forall r | i <= r < n
          ensures a.m[r][i] == s.zero
        {
          assert r > i ==> a.m[r][i] != s.one;
        }
      }
    }
  }

  /** Selection c makes the gap rows invertible, and none that is listed before it does. */
  ghost predicate FirstSelection<V>(
    s: Space<bool, V>, dense: seq<Hash>, gapRows: seq<(nat, nat)>, fcinv: seq<seq<nat>>, d: nat,
    combinations: seq<seq<nat>>, invert: seq<seq<bool>> -> Option<seq<seq<bool>>>, c: nat)
  {
    && c < |combinations| && GapsFit(gapRows, fcinv, |dense|) && (forall r :: 0 <= r < |dense| ==> |dense[r]| >= d)
    && (forall q :: 0 <= q <= c ==> IsSelection(combinations[q], |gapRows|, d))
    && invert(GapBits(s, dense, gapRows, fcinv, d, combinations[c])).Some?
    && forall q :: 0 <= q < c ==> invert(GapBits(s, dense, gapRows, fcinv, d, combinations[q])).None?
  }

  /** Finds dense columns on which the gap rows are invertible, trying the listed selections in turn. */
  method GetGapCols<V(!new)>(
    ghost s: Space<bool, V>, dense: seq<Hash>, gapRows: seq<(nat, nat)>, fcinv: seq<seq<nat>>, width: nat,
    ghost d: nat, combinations: seq<seq<nat>>, invert: seq<seq<bool>> -> Option<seq<seq<bool>>>)
    returns (gapCols: Option<seq<nat>>)
    requires BitLaws(s) && Hashed(dense, width, d) && GapsFit(gapRows, fcinv, |dense|)
    requires forall c :: 0 <= c < |combinations| ==> IsSelection(combinations[c], |gapRows|, d)
    ensures |gapRows| == 0 ==> gapCols == Some([])
    ensures gapCols.Some? ==> IsSelection(gapCols.value, |gapRows|, d)
    ensures gapCols.Some? && |gapRows| > 0 ==> exists c: nat ::
      FirstSelection(s, dense, gapRows, fcinv, d, combinations, invert, c) && gapCols.value == combinations[c]
    ensures gapCols.None? ==> forall c :: 0 <= c < |combinations| ==>
      invert(GapBits(s, dense, gapRows, fcinv, d, combinations[c])).None?
  {
    hide BitLaws, GapBits;
    if |gapRows| == 0 {
      return Some([]);
    }
    for ci := 0 to |combinations|
      invariant forall c :: 0 <= c < ci ==> invert(GapBits(s, dense, gapRows, fcinv, d, combinations[c])).None?
    {
      var ee := BuildGapBits(s, dense, gapRows, fcinv, width, d, combinations[ci]);
      if invert(ee).Some? {
        assert FirstSelection(s, dense, gapRows, fcinv, d, combinations, invert, ci);
        return Some(combinations[ci]);
      }
    }
    return None;
  }

  // Solving for the gap columns.

  /** The right-hand side of gap row i: its gathered value less what the free dense columns contribute. */
  ghost function GapTarget<V>(
    s: Space<bool, V>, dense: seq<Hash>, gap: (nat, nat), added: seq<nat>, d: nat, x: seq<V>, free: seq<V>): V
    requires gap.0 < |dense| == |x| && InRange(added, |dense|) && |free| == d
    requires forall r :: 0 <= r < |dense| ==> |dense[r]| >= d
  {
    s.xor(Gathered(s, x, gap.0, added), Dot(s, CombinedRow(s, BitCoefs(dense, d), gap.0, added, d), free, d))
  }

  /** A zero value may be written over: the sum grows by the selected value. */
  lemma {:induction false} DotWrite<F(!new), V(!new)>(s: Space<F, V>, ks: seq<F>, p: seq<V>, c: nat, v: V, n: nat)
    requires Laws(s) && n <= |ks| && n <= |p| && c < |p| && c < |ks| && p[c] == s.vzero
    ensures Dot(s, ks, p[c := v], n) == s.xor(Dot(s, ks, p, n), if c < n then s.scale(ks[c], v) else s.vzero)
  {
    hide XorLaws;
    if n == 0 {
      XorZero(s.vzero, s.xor, s.vzero);
    } else {
      DotWrite(s, ks, p, c, v, n - 1);
      var before := Dot(s, ks, p, n - 1);
      XorZero(s.vzero, s.xor, before);
      if c == n - 1 {
        ScaleZero(s, ks[c], s.vzero);
        XorZero(s.vzero, s.xor, s.xor(before, s.vzero));
      } else {
        XorMove(s.vzero, s.xor, before, if c < n - 1 then s.scale(ks[c], v) else s.vzero, s.scale(ks[n - 1], p[n - 1]));
      }
    }
  }

  /** p holds the first k values at the first k selected columns and agrees with free elsewhere. */
  ghost predicate Placed<V>(s: Space<bool, V>, p: seq<V>, free: seq<V>, cols: seq<nat>, values: seq<V>, k: nat)
    requires |p| == |free| && InRange(cols, |p|) && k <= |cols| && k <= |values|
  {
    && (forall j :: 0 <= j < k ==> p[cols[j]] == values[j])
    && (forall c :: 0 <= c < |p| && c !in cols[..k] ==> p[c] == free[c])
  }

  /** Values placed at selected columns that were zero add the product of the selected coefficients and the values. */
  lemma {:induction false} DotPlaced<V(!new)>(
    s: Space<bool, V>, ks: seq<bool>, sel: seq<bool>, p: seq<V>, free: seq<V>, cols: seq<nat>, values: seq<V>, k: nat)
    requires Laws(s) && |ks| == |p| == |free| && Distinct(cols) && InRange(cols, |p|)
    requires |sel| == |cols| == |values| && k <= |cols| && Placed(s, p, free, cols, values, k)
    requires forall j :: 0 <= j < |cols| ==> sel[j] == ks[cols[j]] && free[cols[j]] == s.vzero
    ensures Dot(s, ks, p, |p|) == s.xor(Dot(s, ks, free, |p|), Dot(s, sel, values, k))
    decreases k
  {
    hide Laws;
    var base := Dot(s, ks, free, |p|);
    if k == 0 {
      assert p == free;
      GroupLaws(s, base, base, base);
    } else {
      var c, v := cols[k - 1], values[k - 1];
      var q := p[c := s.vzero];
      assert cols[..k] == cols[..k - 1] + [c];
      assert q[c := v] == p;
      DotPlaced(s, ks, sel, q, free, cols, values, k - 1);
      DotWrite(s, ks, q, c, v, |p|);
      GroupLaws(s, base, Dot(s, sel, values, k - 1), s.scale(sel[k - 1], v));
    }
  }

  lemma GroupLaws<F(!new), V(!new)>(s: Space<F, V>, a: V, b: V, c: V)
    requires Laws(s)
    ensures s.xor(s.xor(a, b), c) == s.xor(a, s.xor(b, c)) && s.xor(a, s.vzero) == a
    ensures s.xor(a, s.xor(b, a)) == b && s.xor(a, b) == s.xor(b, a)
  {
    hide XorLaws;
    XorAssoc(s.vzero, s.xor, a, b, c);
    XorZero(s.vzero, s.xor, a);
    XorComm(s.vzero, s.xor, b, a);
    XorComm(s.vzero, s.xor, a, s.xor(b, a));
    XorCancel(s.vzero, s.xor, b, a);
  }

  /** The inverse times the targets, placed at the gap columns, solves the gaps. */
  lemma PlacedSolvesGaps<V(!new)>(
    s: Space<bool, V>, dense: seq<Hash>, x: seq<V>, gapRows: seq<(nat, nat)>, fcinv: seq<seq<nat>>, d: nat,
    cols: seq<nat>, e: seq<seq<bool>>, targets: seq<V>, values: seq<V>, free: seq<V>, p2: seq<V>)
    requires BitLaws(s) && GapsFit(gapRows, fcinv, |dense|) && IsSelection(cols, |gapRows|, d) && |x| == |dense|
    requires forall r :: 0 <= r < |dense| ==> |dense[r]| >= d
    requires |targets| == |values| == |gapRows| && |free| == |p2| == d
    requires forall i :: 0 <= i < |gapRows| ==> targets[i] == GapTarget(s, dense, gapRows[i], fcinv[i], d, x, free)
    requires forall j :: 0 <= j < |cols| ==> free[cols[j]] == s.vzero
    requires InverseMatrix(s, GapBits(s, dense, gapRows, fcinv, d, cols), e)
    requires IsProduct(s, e, |gapRows|, values, targets) && Placed(s, p2, free, cols, values, |gapRows|)
    ensures GapsSolved(s, BitCoefs(dense, d), x, gapRows, fcinv, d, p2)
  {
    hide FieldLaws, Laws, Combined, Gathered;
    RingOf(s);
    var m := GapBits(s, dense, gapRows, fcinv, d, cols);
    assert IsProduct(s, m, |gapRows|, targets, values);
    var coefs := BitCoefs(dense, d);
    forall i | 0 <= i < |gapRows|
      ensures Dot(s, CombinedRow(s, coefs, gapRows[i].0, fcinv[i], d), p2, d) == Gathered(s, x, gapRows[i].0, fcinv[i])
    {
      var ks := CombinedRow(s, coefs, gapRows[i].0, fcinv[i], d);
      DotPlaced(s, ks, m[i], p2, free, cols, values, |gapRows|);
      assert targets[i] == Dot(s, m[i], values, |gapRows|);
      GroupLaws(s, Dot(s, ks, free, d), Gathered(s, x, gapRows[i].0, fcinv[i]), s.vzero);
    }
  }

  lemma RingOf<V(!new)>(s: Space<bool, V>)
    requires BitLaws(s)
    ensures Laws(s)
  {}

  /** The gathered value less the contribution of the first n dense columns. */
  ghost function PartTarget<V>(
    s: Space<bool, V>, dense: seq<Hash>, gap: (nat, nat), added: seq<nat>, d: nat, x: seq<V>, free: seq<V>, n: nat): V
    requires gap.0 < |dense| == |x| && InRange(added, |dense|) && |free| == d && n <= d
    requires forall r :: 0 <= r < |dense| ==> |dense[r]| >= d
  {
    s.xor(Gathered(s, x, gap.0, added), Dot(s, CombinedRow(s, BitCoefs(dense, d), gap.0, added, d), free, n))
  }

  lemma PartSteps<V(!new)>(
    s: Space<bool, V>, dense: seq<Hash>, gap: (nat, nat), added: seq<nat>, d: nat, x: seq<V>, free: seq<V>, n: nat)
    requires BitLaws(s) && gap.0 < |dense| == |x| && InRange(added, |dense|) && |free| == d && n < d
    requires forall r :: 0 <= r < |dense| ==> |dense[r]| >= d
    ensures var before := PartTarget(s, dense, gap, added, d, x, free, n);
      var bit := CombinedRow(s, BitCoefs(dense, d), gap.0, added, d)[n];
      PartTarget(s, dense, gap, added, d, x, free, n + 1) ==
        if bit && free[n] != s.vzero then s.xor(before, free[n]) else before
  {
    hide FieldLaws, Laws, CombinedRow, Gathered;
    RingOf(s);
    var ks := CombinedRow(s, BitCoefs(dense, d), gap.0, added, d);
    var g, sum, term := Gathered(s, x, gap.0, added), Dot(s, ks, free, n), s.scale(ks[n], free[n]);
    assert term == if ks[n] then free[n] else s.vzero;
    assert PartTarget(s, dense, gap, added, d, x, free, n + 1) == s.xor(g, s.xor(sum, term));
    GroupLaws(s, g, sum, term);
    GroupLaws(s, sum, s.vzero, s.vzero);
  }

  lemma PartEnds<V(!new)>(
    s: Space<bool, V>, dense: seq<Hash>, gap: (nat, nat), added: seq<nat>, d: nat, x: seq<V>, free: seq<V>)
    requires BitLaws(s) && gap.0 < |dense| == |x| && InRange(added, |dense|) && |free| == d
    requires forall r :: 0 <= r < |dense| ==> |dense[r]| >= d
    ensures PartTarget(s, dense, gap, added, d, x, free, 0) == Gathered(s, x, gap.0, added)
    ensures PartTarget(s, dense, gap, added, d, x, free, d) == GapTarget(s, dense, gap, added, d, x, free)
    ensures (forall c :: 0 <= c < d ==> free[c] == s.vzero) ==>
      PartTarget(s, dense, gap, added, d, x, free, d) == Gathered(s, x, gap.0, added)
  {
    hide Laws, Combined, Gathered;
    RingOf(s);
    GroupLaws(s, Gathered(s, x, gap.0, added), s.vzero, s.vzero);
    if forall c :: 0 <= c < d ==> free[c] == s.vzero {
      DotZeroTail(s, CombinedRow(s, BitCoefs(dense, d), gap.0, added, d), free, 0, d);
    }
  }

  /** The value of a gap row with the values of its main rows added. */
  method GatherValue<F(!new), V(!new)>(s: Space<F, V>, x: seq<V>, r: nat, added: seq<nat>) returns (v: V)
    requires r < |x| && InRange(added, |x|)
    ensures v == Gathered(s, x, r, added)
  {
    v := x[r];
    assert added[..0] == [];
    for j := 0 to |added|
      invariant InRange(added[..j], |x|) && v == Gathered(s, x, r, added[..j])
    {
      assert added[..j + 1][..j] == added[..j];
      v := s.xor(v, x[added[j]]);
    }
    assert added[..|added|] == added;
  }

  /** The right-hand sides x2' of the gap system. */
  method GetX2Prime<V(!new)>(
    s: Space<bool, V>, dense: seq<Hash>, x: seq<V>, gapRows: seq<(nat, nat)>, fcinv: seq<seq<nat>>, width: nat,
    d: nat, gapCols: seq<nat>, randomized: bool, p: array<V>, sparse: nat) returns (xx2: array<V>)
    requires BitLaws(s) && Hashed(dense, width, d) && GapsFit(gapRows, fcinv, |dense|) && |x| == |dense|
    requires p.Length == sparse + d && InRange(gapCols, d)
    requires forall j :: 0 <= j < |gapCols| ==> p[sparse + gapCols[j]] == s.vzero
    requires !randomized ==> forall c :: sparse <= c < p.Length ==> p[c] == s.vzero
    ensures fresh(xx2) && xx2.Length == |gapRows|
    ensures forall i :: 0 <= i < |gapRows| ==>
      xx2[i] == GapTarget(s, dense, gapRows[i], fcinv[i], d, x, p[sparse..])
  {
    hide BitLaws, Combined, Gathered, PartTarget, GapTarget;
    var g := |gapRows|;
    ghost var free := p[sparse..];
    xx2 := new V[g](_ => s.vzero);
    for i := 0 to g
      invariant forall q :: 0 <= q < i ==> xx2[q] == Gathered(s, x, gapRows[q].0, fcinv[q])
    {
      xx2[i] := GatherValue(s, x, gapRows[i].0, fcinv[i]);
    }
    forall q | 0 <= q < g
      ensures PartTarget(s, dense, gapRows[q], fcinv[q], d, x, free, 0) == xx2[q]
      ensures PartTarget(s, dense, gapRows[q], fcinv[q], d, x, free, d) ==
        GapTarget(s, dense, gapRows[q], fcinv[q], d, x, free)
      ensures !randomized ==> PartTarget(s, dense, gapRows[q], fcinv[q], d, x, free, d) == xx2[q]
    {
      PartEnds(s, dense, gapRows[q], fcinv[q], d, x, free);
    }
    if randomized {
      for i := 0 to d
        invariant forall q :: 0 <= q < g ==> xx2[q] == PartTarget(s, dense, gapRows[q], fcinv[q], d, x, free, i)
      {
        if i !in gapCols {
          SubtractColumn(s, dense, x, gapRows, fcinv, width, d, p[sparse + i], i, xx2, free);
        } else {
          forall q | 0 <= q < g
            ensures PartTarget(s, dense, gapRows[q], fcinv[q], d, x, free, i) ==
              PartTarget(s, dense, gapRows[q], fcinv[q], d, x, free, i + 1)
          {
            PartSteps(s, dense, gapRows[q], fcinv[q], d, x, free, i);
          }
        }
      }
    }
  }

  /** Subtracts what one free dense column contributes to every gap row. */
  method SubtractColumn<V(!new)>(
    s: Space<bool, V>, dense: seq<Hash>, x: seq<V>, gapRows: seq<(nat, nat)>, fcinv: seq<seq<nat>>, width: nat,
    ghost d: nat, v: V, i: nat, xx2: array<V>, ghost free: seq<V>)
    requires BitLaws(s) && Hashed(dense, width, d) && GapsFit(gapRows, fcinv, |dense|) && |x| == |dense|
    requires |free| == d && i < d && v == free[i] && xx2.Length == |gapRows|
    requires forall q :: 0 <= q < |gapRows| ==>
      xx2[q] == PartTarget(s, dense, gapRows[q], fcinv[q], d, x, free, i)
    modifies xx2
    ensures forall q :: 0 <= q < |gapRows| ==>
      xx2[q] == PartTarget(s, dense, gapRows[q], fcinv[q], d, x, free, i + 1)
  {
    hide BitLaws, Combined, PartTarget;
    for j := 0 to |gapRows|
      invariant forall q :: 0 <= q < |gapRows| ==>
        xx2[q] == PartTarget(s, dense, gapRows[q], fcinv[q], d, x, free, if q < j then i + 1 else i)
    {
      var row := CombineHashes(s, dense, gapRows[j].0, fcinv[j], width, d);
      PartSteps(s, dense, gapRows[j], fcinv[j], d, x, free, i);
      assert row[..d][i] == row[i];
      if row[i] {
        AddNothing(s, xx2[j], v);
        xx2[j] := s.xor(xx2[j], v);
      }
    }
  }

  lemma AddNothing<V(!new)>(s: Space<bool, V>, a: V, v: V)
    requires BitLaws(s)
    ensures v == s.vzero ==> s.xor(a, v) == a
  {
    RingOf(s);
    GroupLaws(s, a, a, a);
  }

  /** Adds the product of the inverse and the right-hand sides to the gap columns, which are zero. */
  method PlaceGapColumns<V(!new)>(
    s: Space<bool, V>, e: seq<seq<bool>>, xx2: array<V>, gapCols: seq<nat>, p: array<V>, sparse: nat, ghost d: nat)
    returns (ghost values: seq<V>)
    requires BitLaws(s) && Square(e, xx2.Length) && IsSelection(gapCols, xx2.Length, d) && p.Length == sparse + d
    requires p != xx2 && forall j :: 0 <= j < |gapCols| ==> p[sparse + gapCols[j]] == s.vzero
    modifies p
    ensures |values| == xx2.Length && IsProduct(s, e, xx2.Length, values, xx2[..])
    ensures p[..sparse] == old(p[..sparse])
    ensures Placed(s, p[sparse..], old(p[sparse..]), gapCols, values, |gapCols|)
  {
    hide FieldLaws;
    var g := xx2.Length;
    ghost var x := xx2[..];
    values := seq(g, i requires 0 <= i < g => Dot(s, e[i], x, g));
    for i := 0 to g
      invariant xx2[..] == x && p[..sparse] == old(p[..sparse])
      invariant Placed(s, p[sparse..], old(p[sparse..]), gapCols, values, i)
    {
      var c := gapCols[i];
      assert c !in gapCols[..i];
      assert p[sparse..][c] == old(p[sparse..])[c] == old(p[sparse + c]);
      var pp := ProductEntry(s, p[sparse + c], e[i], xx2, g);
      ghost var before := p[sparse..];
      p[sparse + c] := pp;
      assert p[sparse..] == before[c := pp];
      PlaceNext(s, before, old(p[sparse..]), gapCols, values, i);
    }
    assert gapCols[..g] == gapCols;
  }

  lemma PlaceNext<V>(s: Space<bool, V>, p: seq<V>, free: seq<V>, cols: seq<nat>, values: seq<V>, k: nat)
    requires |p| == |free| && InRange(cols, |p|) && k < |cols| && k < |values| && Distinct(cols)
    requires Placed(s, p, free, cols, values, k)
    ensures Placed(s, p[cols[k] := values[k]], free, cols, values, k + 1)
  {
    assert cols[..k + 1] == cols[..k] + [cols[k]];
  }

  method ProductEntry<V(!new)>(s: Space<bool, V>, zero: V, row: seq<bool>, xx2: array<V>, g: nat) returns (pp: V)
    requires BitLaws(s) && zero == s.vzero && |row| == xx2.Length == g
    ensures pp == Dot(s, row, xx2[..], g)
  {
    hide FieldLaws;
    pp := zero;
    for j := 0 to g
      invariant pp == Dot(s, row, xx2[..], j)
    {
      AddNothing(s, pp, s.vzero);
      if row[j] {
        pp := s.xor(pp, xx2[j]);
      }
    }
  }

  /** The value that remains to be written for a row, its dense part taken from the bits of the hash. */
  method MissingBits<V(!new)>(
    s: Space<bool, V>, row: seq<nat>, hash: Hash, x: V, p: array<V>, sparse: nat, d: nat, randomized: bool,
    gapCols: seq<nat>) returns (y: V)
    requires BitLaws(s) && InRange(row, sparse) && p.Length == sparse + d && d <= |hash|
    requires IsSelection(gapCols, |gapCols|, d)
    requires !randomized ==> forall c :: 0 <= c < d && c !in gapCols ==> p[sparse + c] == s.vzero
    ensures y == s.xor(x, RowValue(s, row, hash[..d], p[..], sparse))
  {
    hide FieldLaws, Laws;
    RingOf(s);
    y := x;
    GroupLaws(s, x, x, x);
    for j := 0 to |row|
      invariant y == s.xor(x, SparseSum(s, row, p[..], j))
    {
      GroupLaws(s, x, SparseSum(s, row, p[..], j), p[row[j]]);
      y := s.xor(y, p[row[j]]);
    }
    ghost var a, ks, p2 := y, hash[..d], p[..][sparse..];
    GroupLaws(s, a, a, a);
    if randomized {
      for j := 0 to d
        invariant y == s.xor(a, Dot(s, ks, p2, j))
      {
        GroupLaws(s, a, Dot(s, ks, p2, j), p2[j]);
        GroupLaws(s, Dot(s, ks, p2, j), a, a);
        if hash[j] {
          y := s.xor(y, p[sparse + j]);
        }
      }
    } else {
      ghost var sel, values := SelectedBits(hash, gapCols), SelectedValues(p2, gapCols);
      for j := 0 to |gapCols|
        invariant y == s.xor(a, Dot(s, sel, values, j))
      {
        GroupLaws(s, a, Dot(s, sel, values, j), values[j]);
        GroupLaws(s, Dot(s, sel, values, j), a, a);
        if hash[gapCols[j]] {
          y := s.xor(y, p[sparse + gapCols[j]]);
        }
      }
      SelectedDot(s, hash, p2, gapCols);
    }
    GroupLaws(s, x, SparseSum(s, row, p[..], |row|), Dot(s, ks, p2, d));
  }

  ghost function SelectedBits(hash: Hash, cols: seq<nat>): (b: seq<bool>)
    requires InRange(cols, |hash|)
    ensures |b| == |cols|
  {
    seq(|cols|, j requires 0 <= j < |cols| => hash[cols[j]])
  }

  ghost function SelectedValues<V>(p2: seq<V>, cols: seq<nat>): (v: seq<V>)
    requires InRange(cols, |p2|)
    ensures |v| == |cols|
  {
    seq(|cols|, j requires 0 <= j < |cols| => p2[cols[j]])
  }

  /** When the other dense columns are zero, the selected ones give the whole dense part. */
  lemma SelectedDot<V(!new)>(s: Space<bool, V>, hash: Hash, p2: seq<V>, cols: seq<nat>)
    requires BitLaws(s) && |p2| <= |hash| && IsSelection(cols, |cols|, |p2|)
    requires forall c :: 0 <= c < |p2| && c !in cols ==> p2[c] == s.vzero
    ensures Dot(s, hash[..|p2|], p2, |p2|) == Dot(s, SelectedBits(hash, cols), SelectedValues(p2, cols), |cols|)
  {
    hide FieldLaws, Laws;
    RingOf(s);
    var d, free := |p2|, seq(|p2|, _ => s.vzero);
    assert cols[..|cols|] == cols;
    DotPlaced(s, hash[..d], SelectedBits(hash, cols), p2, free, cols, SelectedValues(p2, cols), |cols|);
    DotZeroTail(s, hash[..d], free, 0, d);
    GroupLaws(s, s.vzero, Dot(s, SelectedBits(hash, cols), SelectedValues(p2, cols), |cols|), s.vzero);
    GroupLaws(s, Dot(s, SelectedBits(hash, cols), SelectedValues(p2, cols), |cols|), s.vzero, s.vzero);
  }

  /** Values drawn for the free sparse columns and for the dense columns. */
  datatype Draws<V> = Draws(sparse: seq<V>, dense: seq<V>) {
    predicate Fit(sparseSize: nat, denseSize: nat) {
      |sparse| == sparseSize && |dense| == denseSize
    }
  }

  function DenseDraws<V>(draws: Option<Draws<V>>): Option<seq<V>> {
    if draws.Some? then Some(draws.value.dense) else None
  }

  lemma BitsValid(paxos: Paxos<Hash>, width: nat)
    requires paxos.HasMatrix() && Hashed(paxos.dense, width, paxos.param.denseSize)
    ensures SystemOfBits(paxos).Valid()
  {}

  /** Assigns the main columns in reverse order of peeling. */
  method BackSubstituteBits<V(!new)>(
    s: Space<bool, V>, paxos: Paxos<Hash>, width: nat, t: Triangle, x: seq<V>, p: array<V>, randomized: bool,
    gapCols: seq<nat>)
    requires BitLaws(s) && paxos.HasMatrix() && |x| == paxos.numItems
    requires Hashed(paxos.dense, width, paxos.param.denseSize)
    requires Triangular(paxos.rows, t.mainRows, t.mainCols)
    requires Distinct(t.mainCols) && InRange(t.mainCols, paxos.param.sparseSize)
    requires IsSelection(gapCols, |gapCols|, paxos.param.denseSize)
    requires p.Length == paxos.param.Size() && forall j :: 0 <= j < |t.mainCols| ==> p[t.mainCols[j]] == s.vzero
    requires !randomized ==> forall c :: 0 <= c < paxos.param.denseSize && c !in gapCols ==>
      p[paxos.param.sparseSize + c] == s.vzero
    modifies p
    ensures SystemOfBits(paxos).Valid()
    ensures Substituted(s, SystemOfBits(paxos), t, p[..], x, |t.mainRows|)
    ensures forall c :: 0 <= c < p.Length && c !in t.mainCols ==> p[c] == old(p[c])
  {
    hide FieldLaws, Laws, Triangular, GoodRows, Substituted, RowValue;
    BitsValid(paxos, width);
    RingOf(s);
    ghost var sys := SystemOfBits(paxos);
    TriangleShape(paxos.rows, t);
    SubstituteStart(s, sys, t, p[..], x);
    var m := |t.mainRows|;
    for k := 0 to m
      invariant Substituted(s, sys, t, p[..], x, k)
      invariant forall c :: 0 <= c < p.Length && c !in t.mainCols ==> p[c] == old(p[c])
    {
      var i := t.mainRows[m - 1 - k];
      var c := t.mainCols[m - 1 - k];
      var y := MissingBits(s, paxos.rows[i], paxos.dense[i], x[i], p, paxos.param.sparseSize, paxos.param.denseSize,
                           randomized, gapCols);
      SubstituteStep(s, sys, t, p[..], x, k, y);
      ghost var before := p[..];
      p[c] := y;
      assert p[..] == before[c := y];
      assert c in t.mainCols;
    }
  }

  /** Draws the dense columns that are not gap columns. */
  method RandomizeDenseCols<V>(p: array<V>, sparse: nat, d: nat, gapCols: seq<nat>, values: seq<V>)
    requires p.Length == sparse + d && |values| == d
    modifies p
    ensures forall c :: 0 <= c < sparse ==> p[c] == old(p[c])
    ensures forall c :: sparse <= c < p.Length ==>
      p[c] == if c - sparse in gapCols then old(p[c]) else values[c - sparse]
  {
    for i := 0 to d
      invariant forall c :: 0 <= c < sparse ==> p[c] == old(p[c])
      invariant forall c :: sparse <= c < p.Length ==>
        p[c] == if c - sparse in gapCols || c - sparse >= i then old(p[c]) else values[c - sparse]
    {
      if i !in gapCols {
        p[sparse + i] := values[i];
      }
    }
  }

  /** No listed selection of dense columns makes the gap rows invertible. */
  ghost predicate NoSelection<V>(
    s: Space<bool, V>, dense: seq<Hash>, gapRows: seq<(nat, nat)>, fcinv: seq<seq<nat>>, d: nat,
    combinations: seq<seq<nat>>, invert: seq<seq<bool>> -> Option<seq<seq<bool>>>)
  {
    && |gapRows| > 0 && GapsFit(gapRows, fcinv, |dense|) && (forall r :: 0 <= r < |dense| ==> |dense[r]| >= d)
    && (forall c :: 0 <= c < |combinations| ==> IsSelection(combinations[c], |gapRows|, d))
    && forall c :: 0 <= c < |combinations| ==> invert(GapBits(s, dense, gapRows, fcinv, d, combinations[c])).None?
  }

  lemma SomeSelection<V>(
    s: Space<bool, V>, dense: seq<Hash>, gapRows: seq<(nat, nat)>, fcinv: seq<seq<nat>>, d: nat,
    combinations: seq<seq<nat>>, invert: seq<seq<bool>> -> Option<seq<seq<bool>>>)
    ensures gapRows == [] ==> !NoSelection(s, dense, gapRows, fcinv, d, combinations, invert)
  {}

  /** The dense columns outside the given ones hold the drawn values, or zeroes without a draw. */
  ghost predicate OutsideDrawn<V>(zero: V, cols: seq<nat>, draws: Option<seq<V>>, p2: seq<V>) {
    && (draws.Some? ==> |draws.value| == |p2|)
    && forall j :: 0 <= j < |p2| && j !in cols ==> p2[j] == if draws.Some? then draws.value[j] else zero
  }

  /** All dense columns are drawn, or zero, but for the first selection that makes the gap rows invertible. */
  ghost predicate DenseBitsDrawn<V>(
    s: Space<bool, V>, dense: seq<Hash>, gapRows: seq<(nat, nat)>, fcinv: seq<seq<nat>>, d: nat,
    combinations: seq<seq<nat>>, invert: seq<seq<bool>> -> Option<seq<seq<bool>>>, draws: Option<seq<V>>, p2: seq<V>)
  {
    && |p2| == d
    && if gapRows == [] then OutsideDrawn(s.vzero, [], draws, p2)
       else (exists c: nat :: FirstSelection(s, dense, gapRows, fcinv, d, combinations, invert, c) &&
                              OutsideDrawn(s.vzero, combinations[c], draws, p2))
  }

  /** Solves for the gap columns after drawing the other dense columns; None is the throw of a failed search. */
  method SolveGapColumns<V(!new)>(
    s: Space<bool, V>, dense: seq<Hash>, x: seq<V>, gapRows: seq<(nat, nat)>, fcinv: seq<seq<nat>>, width: nat,
    sparse: nat, d: nat, combinations: seq<seq<nat>>, invert: seq<seq<bool>> -> Option<seq<seq<bool>>>,
    draws: Option<seq<V>>, p: array<V>) returns (gapCols: Option<seq<nat>>)
    requires BitLaws(s) && Inverts(s, invert) && Hashed(dense, width, d) && GapsFit(gapRows, fcinv, |dense|)
    requires |gapRows| > 0 && |x| == |dense| && p.Length == sparse + d
    requires forall c :: sparse <= c < p.Length ==> p[c] == s.vzero
    requires draws.Some? ==> |draws.value| == d
    requires forall c :: 0 <= c < |combinations| ==> IsSelection(combinations[c], |gapRows|, d)
    modifies p
    ensures forall c :: 0 <= c < sparse ==> p[c] == old(p[c])
    ensures gapCols.None? <==> NoSelection(s, dense, gapRows, fcinv, d, combinations, invert)
    ensures gapCols.Some? ==> IsSelection(gapCols.value, |gapRows|, d)
    ensures gapCols.Some? ==> GapsSolved(s, BitCoefs(dense, d), x, gapRows, fcinv, d, p[sparse..])
    ensures gapCols.Some? ==> OutsideDrawn(s.vzero, gapCols.value, draws, p[sparse..])
    ensures gapCols.Some? ==>
      DenseBitsDrawn(s, dense, gapRows, fcinv, d, combinations, invert, draws, p[sparse..])
  {
    hide BitLaws, GapBits, GapsSolved, GapTarget, Placed, InverseMatrix, IsProduct, GapsFit, Distinct, FirstSelection;
    gapCols := GetGapCols(s, dense, gapRows, fcinv, width, d, combinations, invert);
    if gapCols.None? {
      return;
    }
    var cols := gapCols.value;
    if draws.Some? {
      RandomizeDenseCols(p, sparse, d, cols, draws.value);
    }
    ghost var free := p[sparse..];
    assert OutsideDrawn(s.vzero, cols, draws, free);
    hide OutsideDrawn;
    FoundFirst(s, dense, gapRows, fcinv, d, combinations, invert, cols);
    var xx2 := GetX2Prime(s, dense, x, gapRows, fcinv, width, d, cols, draws.Some?, p, sparse);
    var ee := BuildGapBits(s, dense, gapRows, fcinv, width, d, cols);
    var e := invert(ee).value;
    InverseShape(s, ee, e);
    ghost var lower := p[..sparse];
    assert forall c :: 0 <= c < sparse ==> lower[c] == old(p[c]);
    ghost var values := PlaceGapColumns(s, e, xx2, cols, p, sparse, d);
    assert forall c :: 0 <= c < sparse ==> p[..sparse][c] == lower[c];
    PlacedSolvesGaps(s, dense, x, gapRows, fcinv, d, cols, e, xx2[..], values, free, p[sparse..]);
    PlacedElsewhere(s, p[sparse..], free, cols, values, draws);
  }

  /** The selection found is one with an inverse. */
  lemma FoundFirst<V(!new)>(
    s: Space<bool, V>, dense: seq<Hash>, gapRows: seq<(nat, nat)>, fcinv: seq<seq<nat>>, d: nat,
    combinations: seq<seq<nat>>, invert: seq<seq<bool>> -> Option<seq<seq<bool>>>, cols: seq<nat>)
    requires exists c: nat ::
      FirstSelection(s, dense, gapRows, fcinv, d, combinations, invert, c) && cols == combinations[c]
    ensures GapsFit(gapRows, fcinv, |dense|) && IsSelection(cols, |gapRows|, d)
    ensures forall r :: 0 <= r < |dense| ==> |dense[r]| >= d
    ensures cols in combinations && invert(GapBits(s, dense, gapRows, fcinv, d, cols)).Some?
  {
    var c: nat :| FirstSelection(s, dense, gapRows, fcinv, d, combinations, invert, c) && cols == combinations[c];
  }

  lemma InverseShape<V(!new)>(s: Space<bool, V>, m: seq<seq<bool>>, e: seq<seq<bool>>)
    requires Square(m, |m|) && InverseMatrix(s, m, e)
    ensures Square(e, |m|)
  {}

  /** The other columns stay as they were drawn. */
  lemma PlacedElsewhere<V>(
    s: Space<bool, V>, p: seq<V>, free: seq<V>, cols: seq<nat>, values: seq<V>, draws: Option<seq<V>>)
    requires |p| == |free| && InRange(cols, |p|) && |cols| == |values| && Placed(s, p, free, cols, values, |cols|)
    requires OutsideDrawn(s.vzero, cols, draws, free)
    ensures OutsideDrawn(s.vzero, cols, draws, p)
  {
    assert cols[..|cols|] == cols;
  }

  /** Assigns the output of a triangulated system. */
  method BackfillBinary<V(!new)>(
    s: Space<bool, V>, paxos: Paxos<Hash>, width: nat, t: Triangle, x: seq<V>, p: array<V>, draws: Option<Draws<V>>,
    combinations: seq<seq<nat>>, invert: seq<seq<bool>> -> Option<seq<seq<bool>>>)
    returns (r: Status, ghost fcinv: seq<seq<nat>>)
    requires BitLaws(s) && Inverts(s, invert) && paxos.HasMatrix() && |x| == paxos.numItems
    requires Hashed(paxos.dense, width, paxos.param.denseSize)
    requires Triangulated(paxos.rows, paxos.dense, paxos.param.sparseSize, t)
    requires p.Length == paxos.param.Size()
    requires forall c :: 0 <= c < p.Length && (c in t.mainCols || c >= paxos.param.sparseSize) ==> p[c] == s.vzero
    requires draws.Some? ==> draws.value.Fit(paxos.param.sparseSize, paxos.param.denseSize)
    requires forall c :: 0 <= c < |combinations| ==> IsSelection(combinations[c], |t.gapRows|, paxos.param.denseSize)
    modifies p
    ensures SystemOfBits(paxos).Valid()
    ensures r == Encoded || r == TooManyGaps || r == NotInvertible
    ensures r == TooManyGaps <==> |t.gapRows| > paxos.param.g
    ensures r != TooManyGaps ==> ClearsGaps(paxos.rows, t.mainRows, t.mainCols, t.gapRows, fcinv)
    ensures r != TooManyGaps ==> TakesShortcuts(paxos.rows, t, fcinv)
    ensures r != TooManyGaps ==> (r == NotInvertible <==>
      NoSelection(s, paxos.dense, t.gapRows, fcinv, paxos.param.denseSize, combinations, invert))
    ensures r == Encoded ==> DecodesUpTo(s, SystemOfBits(paxos), t, fcinv, p[..], x)
    ensures r == Encoded ==> forall c :: 0 <= c < paxos.param.sparseSize && c !in t.mainCols ==> p[c] == old(p[c])
    ensures r == Encoded ==> DenseBitsDrawn(s, paxos.dense, t.gapRows, fcinv, paxos.param.denseSize, combinations,
      invert, DenseDraws(draws), p[..][paxos.param.sparseSize..])
  {
    hide BitLaws, Laws, Triangular, GapRows, SplitsRows, GoodRows, Substituted, DecodesUpTo, GapsSolved, ClearsGaps,
      GapsFit, NoSelection, Inverts, FirstBits, Hashed, TakesShortcut, Below;
    RingOf(s);
    BitsValid(paxos, width);
    TriangleShape(paxos.rows, t);
    MainColsInRange(t.mainCols, paxos.param.sparseSize);
    GoodShape(paxos.rows, paxos.param.weight, paxos.param.sparseSize);
    ghost var sys := SystemOfBits(paxos);
    var sparse, d := paxos.param.sparseSize, paxos.param.denseSize;
    fcinv := [];
    if |t.gapRows| > paxos.param.g {
      return TooManyGaps, fcinv;
    }
    var gapCols: seq<nat> := [];
    if |t.gapRows| > 0 {
      var added := GetFCInv(paxos.rows, paxos.dense, sparse, t);
      fcinv := added;
      GapsAreRows(paxos.rows, t, added);
      var drawn := DenseDraws(draws);
      var found := SolveGapColumns(s, paxos.dense, x, t.gapRows, added, width, sparse, d, combinations, invert,
        drawn, p);
      if found.None? {
        return NotInvertible, fcinv;
      }
      gapCols := found.value;
    } else {
      if draws.Some? {
        RandomizeDenseCols(p, sparse, d, [], draws.value.dense);
      }
      NoGaps(s, sys, t, x, p[sparse..]);
      assert OutsideDrawn(s.vzero, [], DenseDraws(draws), p[sparse..]);
    }
    SomeSelection(s, paxos.dense, t.gapRows, fcinv, d, combinations, invert);
    ghost var solved := p[..];
    assert forall c :: 0 <= c < sparse ==> solved[c] == old(p[c]);
    BackSubstituteBits(s, paxos, width, t, x, p, draws.Some?, gapCols);
    assert p[sparse..] == solved[sparse..] == p[..][sparse..];
    GapsAreRows(paxos.rows, t, fcinv);
    BackfillDecodes(s, sys, t, fcinv, p[..], x);
    return Encoded, fcinv;
  }

  /** Twins among the gap rows leave no selection of dense columns. */
  lemma TwinsHaveNoSelection<V(!new)>(
    s: Space<bool, V>, rows: seq<seq<nat>>, dense: seq<Hash>, width: nat, size: nat, t: Triangle, fcinv: seq<seq<nat>>,
    d: nat, combinations: seq<seq<nat>>, invert: seq<seq<bool>> -> Option<seq<seq<bool>>>, v: V)
    requires BitLaws(s) && Inverts(s, invert) && v != s.vzero && Hashed(dense, width, d)
    requires Triangulated(rows, dense, size, t) && HasTwins(rows, dense)
    requires ClearsGaps(rows, t.mainRows, t.mainCols, t.gapRows, fcinv)
    requires forall c :: 0 <= c < |combinations| ==> IsSelection(combinations[c], |t.gapRows|, d)
    ensures NoSelection(s, dense, t.gapRows, fcinv, d, combinations, invert)
  {
    hide BitLaws, Triangular, GapRows, SplitsRows, ClearsGap, GapBits, Below, Distinct, InverseMatrix;
    var i, j :| 0 <= i < j < |rows| && AreTwins(rows, dense, i, j);
    NotMain(rows, dense, size, t, i, j);
    NotMain(rows, dense, size, t, j, i);
    var a := GapOf(t, |rows|, i);
    var b := GapOf(t, |rows|, j);
    GapsAreRows(rows, t, fcinv);
    forall c | 0 <= c < |combinations|
      ensures invert(GapBits(s, dense, t.gapRows, fcinv, d, combinations[c])).None?
    {
      var m := GapBits(s, dense, t.gapRows, fcinv, d, combinations[c]);
      TwinsShareBits(s, rows, dense, width, t, fcinv, d, combinations[c], a, b);
      NotInverted(s, m, invert, a, b, v);
    }
  }

  /** A matrix with two equal rows is not inverted. */
  lemma NotInverted<V(!new)>(
    s: Space<bool, V>, m: seq<seq<bool>>, invert: seq<seq<bool>> -> Option<seq<seq<bool>>>, a: nat, b: nat, v: V)
    requires Inverts(s, invert) && Square(m, |m|) && a < |m| && b < |m| && a != b && m[a] == m[b] && v != s.vzero
    ensures invert(m).None?
  {
    hide IsProduct, Singular;
    if invert(m).Some? {
      var e := invert(m).value;
      assert InverseMatrix(s, m, e);
      var p, x := EqualRows(s, m, e, |m|, a, b, v);
    }
  }

  /** The rows of twins in the bit matrix are equal. */
  lemma TwinsShareBits<V(!new)>(
    s: Space<bool, V>, rows: seq<seq<nat>>, dense: seq<Hash>, width: nat, t: Triangle, fcinv: seq<seq<nat>>, d: nat,
    cols: seq<nat>, a: nat, b: nat)
    requires BitLaws(s) && |dense| == |rows| && Hashed(dense, width, d) && Triangular(rows, t.mainRows, t.mainCols)
    requires ClearsGaps(rows, t.mainRows, t.mainCols, t.gapRows, fcinv) && GapsFit(t.gapRows, fcinv, |rows|)
    requires IsSelection(cols, |t.gapRows|, d) && a < |t.gapRows| && b < |t.gapRows|
    requires AreTwins(rows, dense, t.gapRows[a].0, t.gapRows[b].0)
    ensures var m := GapBits(s, dense, t.gapRows, fcinv, d, cols); |m| == |t.gapRows| && Square(m, |m|) && m[a] == m[b]
  {
    hide FieldLaws, Triangular, ClearsGap, Combined, Distinct;
    RingOf(s);
    BitsXor(s);
    forall k | 0 <= k < d
      ensures Combined(s, BitCoefs(dense, d), t.gapRows[a].0, fcinv[a], k) ==
        Combined(s, BitCoefs(dense, d), t.gapRows[b].0, fcinv[b], k)
    {
      TwinsCombine(s, rows, BitCoefs(dense, d), t.mainRows, t.mainCols, t.gapRows[a].0, t.gapRows[b].0,
                   fcinv[a], fcinv[b], k);
    }
    assert CombinedRow(s, BitCoefs(dense, d), t.gapRows[a].0, fcinv[a], d) ==
      CombinedRow(s, BitCoefs(dense, d), t.gapRows[b].0, fcinv[b], d);
    var m := GapBits(s, dense, t.gapRows, fcinv, d, cols);
    assert m[a] == m[b];
  }

  lemma BitsXor<V(!new)>(s: Space<bool, V>)
    requires Laws(s)
    ensures XorLaws(s.zero, s.plus)
  {}

  /** Encodes the values with bits as dense coefficients. */
  method EncodeBinary<V(!new)>(
    s: Space<bool, V>, paxos: Paxos<Hash>, width: nat, x: seq<V>, p: array<V>, draws: Option<Draws<V>>,
    combinations: nat -> seq<seq<nat>>, invert: seq<seq<bool>> -> Option<seq<seq<bool>>>)
    returns (r: Status, ghost t: Triangle, ghost fcinv: seq<seq<nat>>)
    requires BitLaws(s) && Inverts(s, invert) && paxos.HasMatrix() && paxos.HasColumns() && paxos.WeightsFit()
    requires paxos.Ready() || (paxos.weightSets.Valid() && |paxos.weightSets.weightSets| <= 1)
    requires |x| == paxos.numItems && Hashed(paxos.dense, width, paxos.param.denseSize)
    requires draws.Some? ==> draws.value.Fit(paxos.param.sparseSize, paxos.param.denseSize)
    requires forall g: nat, c :: 0 <= c < |combinations(g)| ==>
      IsSelection(combinations(g)[c], g, paxos.param.denseSize)
    requires p as object != paxos.weightSets.nodes && p as object != paxos.colBacking
    modifies p, paxos.weightSets, paxos.weightSets.nodes
    ensures r != TooFewColumns && (r == WrongSize <==> p.Length != paxos.param.Size())
    ensures r == NoFreeColumn <==> p.Length == paxos.param.Size() && paxos.param.sparseSize == 0
    ensures r == Duplicates ==> HasDuplicates(paxos.dense)
    ensures r == Encoded && HasNonZero(s.vzero) ==> !HasTwins(paxos.rows, paxos.dense)
    ensures r in {Encoded, TooManyGaps, NotInvertible} ==>
      Triangulated(paxos.rows, paxos.dense, paxos.param.sparseSize, t) &&
      LeastFirst(paxos.rows, paxos.param.sparseSize, t.mainCols) && t == TriangleOf(paxos.rows, t.mainCols) &&
      (t.gapRows == [] <==> Peelable(paxos.rows)) && (r == TooManyGaps <==> |t.gapRows| > paxos.param.g)
    ensures Peelable(paxos.rows) ==> r in {Encoded, WrongSize, NoFreeColumn}
    ensures r in {Encoded, NotInvertible} ==>
      ClearsGaps(paxos.rows, t.mainRows, t.mainCols, t.gapRows, fcinv) && TakesShortcuts(paxos.rows, t, fcinv) &&
      (r == NotInvertible <==> NoSelection(
        s, paxos.dense, t.gapRows, fcinv, paxos.param.denseSize, combinations(|t.gapRows|), invert))
    ensures r == Encoded ==> DecodesUpTo(s, SystemOfBits(paxos), t, fcinv, p[..], x)
    ensures r == Encoded && (draws.None? || OnlyDuplicates(paxos.rows, t)) ==>
      AllDecode(s, SystemOfBits(paxos), p[..], x)
    ensures r == Encoded && draws.Some? ==>
      (AllDecode(s, SystemOfBits(paxos), p[..], x) <==> DrawCancels(s, paxos.rows, t, fcinv, draws.value.sparse))
    ensures r == Encoded ==> forall c :: 0 <= c < paxos.param.sparseSize && c !in t.mainCols ==>
      p[c] == if draws.Some? then draws.value.sparse[c] else s.vzero
    ensures r == Encoded ==> DenseBitsDrawn(s, paxos.dense, t.gapRows, fcinv, paxos.param.denseSize,
      combinations(|t.gapRows|), invert, DenseDraws(draws), p[..][paxos.param.sparseSize..])
  {
    hide BitLaws, Laws, Inverts, GoodRows, Triangulated, DecodesUpTo, AllDecode, DrawCancels, ClearsGaps, GapsFit,
      NoSelection, TakesShortcuts, OnlyDuplicates, Linked, Trimmed, HoldsColumn, ColumnOf, HasTwins, DenseBitsDrawn,
      LeastFirst, TriangleOf, Peelable;
    BitsValid(paxos, width);
    t, fcinv := Triangle([], [], []), [];
    if p.Length != paxos.param.Size() {
      return WrongSize, t, fcinv;
    }
    var peel, triangle := paxos.Triangulate();
    t := triangle;
    if peel != Done {
      return StatusOf(peel), t, fcinv;
    }
    ZeroFill(p, s.vzero);
    ghost var values: Option<seq<V>> := None;
    if draws.Some? {
      RandomizeFree(paxos.weightSets, p, draws.value.sparse);
      values := Some(draws.value.sparse);
    }
    FreeColumns(paxos.param.sparseSize, t.mainCols);
    r, fcinv := BackfillBinary(s, paxos, width, triangle, x, p, draws, combinations(|triangle.gapRows|), invert);
    SomeSelection(s, paxos.dense, t.gapRows, fcinv, paxos.param.denseSize, combinations(|t.gapRows|), invert);
    if r == Encoded {
      BitsField(s);
      EncodeDecodes(s, SystemOfBits(paxos), paxos.dense, t, fcinv, p[..], x, values);
      if HasNonZero(s.vzero) && HasTwins(paxos.rows, paxos.dense) {
        ghost var v: V :| At(v, v, v) && v != s.vzero;
        TwinsHaveNoSelection(s, paxos.rows, paxos.dense, width, paxos.param.sparseSize, t, fcinv,
                             paxos.param.denseSize, combinations(|t.gapRows|), invert, v);
        assert false;
      }
    }
  }

  lemma BitsField<V(!new)>(s: Space<bool, V>)
    requires BitLaws(s)
    ensures FieldLaws(s)
  {}
}
