/** The conversion between the monomial basis and the basis of the additive transform, by sparse divisions in place. */
module BasisConversion {
  import opened Algebra
  import opened Words

  // The divisor of level j is x^N, N = 2^j, plus one term x^(N - d) for each offset d.

  /** The offsets 2^j - 2^i for i < k with an odd binomial coefficient of j over i. */
  function OffsetsBelow(j: nat, k: nat): (ds: seq<nat>)
    requires k <= j
  {
    if k == 0 then [] else
    Pow2Grows(k - 1, j);
    OffsetsBelow(j, k - 1) + if And(k - 1, j - (k - 1)) == 0 then [Pow2(j) - Pow2(k - 1)] else []
  }

  function Offsets(j: nat): seq<nat> {
    OffsetsBelow(j, j)
  }

  ghost predicate GoodOffsets(ds: seq<nat>, n: nat) {
    forall k :: 0 <= k < |ds| ==> 1 <= ds[k] < n
  }

  lemma {:induction false} OffsetsInRange(j: nat, k: nat)
    requires k <= j
    ensures GoodOffsets(OffsetsBelow(j, k), Pow2(j))
  {
    if k > 0 {
      OffsetsInRange(j, k - 1);
      Pow2Grows(k - 1, j);
    }
  }

  /** Doubling both numbers, or adding a last bit to one of them, keeps whether they have a bit in common. */
  lemma AndDoubles(x: nat, y: nat)
    ensures And(2 * x, 2 * y) == 2 * And(x, y) && And(2 * x + 1, 2 * y) == 2 * And(x, y)
    ensures And(2 * x, 2 * y + 1) == 2 * And(x, y) && And(2 * x + 1, 2 * y + 1) == 2 * And(x, y) + 1
  {
    AndZero(x);
    AndZero(y);
  }

  /** Level 2 j has the doubled exponents of level j. */
  lemma EvenLevel(j: nat, k: nat)
    requires k < 2 * j
    ensures And(k, 2 * j - k) == 0 <==> k % 2 == 0 && And(k / 2, j - k / 2) == 0
  {
    hide And;
    var h := k / 2;
    if k % 2 == 0 {
      AndDoubles(h, j - h);
    } else {
      AndDoubles(h, j - h - 1);
    }
  }

  /** Level 2 j + 1 has the doubled exponents of level j, with and without one added, and 2 j. */
  lemma OddLevel(j: nat, k: nat)
    requires k < 2 * j + 1
    ensures And(k, 2 * j + 1 - k) == 0 <==> And(k / 2, j - k / 2) == 0
  {
    hide And;
    var h := k / 2;
    assert k == 2 * h || k == 2 * h + 1;
    AndDoubles(h, j - h);
  }

  /** Level j has the offset 2^j - 2^k exactly for these k. */
  ghost predicate HasTerm(j: nat, k: nat) {
    k < j && And(k, j - k) == 0
  }

  lemma {:induction false} OffsetsExactly(j: nat, k: nat, d: nat)
    requires k <= j
    ensures d in OffsetsBelow(j, k) <==> exists i: nat :: i < k && HasTerm(j, i) && d == Pow2(j) - Pow2(i)
  {
    hide Pow2, And;
    if k > 0 {
      OffsetsExactly(j, k - 1, d);
      assert HasTerm(j, k - 1) <==> And(k - 1, j - (k - 1)) == 0;
    }
  }

  /** The exponents that the generated code spells out, level by level. */
  function Spelled(j: nat): set<nat>
    requires 1 <= j <= TOP_LEVEL
  {
    match j
    case 1 => {0}
    case 2 => {0}
    case 3 => {0, 1, 2}
    case 4 => {0}
    case 5 => {0, 1, 4}
    case 6 => {0, 2, 4}
    case 7 => {0, 1, 2, 3, 4, 5, 6}
    case 8 => {0}
    case 9 => {0, 1, 8}
    case 10 => {0, 2, 8}
    case 11 => {0, 1, 2, 3, 8, 9, 10}
    case 12 => {0, 4, 8}
    case 13 => {0, 1, 4, 5, 8, 9, 12}
    case 14 => {0, 2, 4, 6, 8, 10, 12}
    case 15 => {0, 1, 2, 3, 4, 5, 6, 7, 8, 9, 10, 11, 12, 13, 14}
    case 16 => {0}
    case 17 => {0, 1, 16}
    case 18 => {0, 2, 16}
    case 19 => {0, 1, 2, 3, 16, 17, 18}
    case 20 => {0, 4, 16}
    case 21 => {0, 1, 4, 5, 16, 17, 20}
    case 22 => {0, 2, 4, 6, 16, 18, 20}
    case 23 => {0, 1, 2, 3, 4, 5, 6, 7, 16, 17, 18, 19, 20, 21, 22}
    case 24 => {0, 8, 16}
    case 25 => {0, 1, 8, 9, 16, 17, 24}
    case 26 => {0, 2, 8, 10, 16, 18, 24}
    case 27 => {0, 1, 2, 3, 8, 9, 10, 11, 16, 17, 18, 19, 24, 25, 26}
    case 28 => {0, 4, 8, 12, 16, 20, 24}
    case 29 => {0, 1, 4, 5, 8, 9, 12, 13, 16, 17, 20, 21, 24, 25, 28}
    case 30 => {0, 2, 4, 6, 8, 10, 12, 14, 16, 18, 20, 22, 24, 26, 28}
  }

  /** The rule for the offsets gives those of all thirty levels of the generated code. */
  lemma AllLevels(j: nat, d: nat)
    requires 1 <= j <= TOP_LEVEL
    ensures d in Offsets(j) <==> exists k: nat :: k < j && k in Spelled(j) && d == Pow2(j) - Pow2(k)
  {
    hide Pow2, Spelled, HasTerm, OffsetsBelow;
    OffsetsExactly(j, j, d);
    forall k: nat | k < j
      ensures k in Spelled(j) <==> HasTerm(j, k)
    {
      SpelledTerm(j, k);
    }
  }

  lemma {:induction false} SpelledTerm(j: nat, k: nat)
    requires 1 <= j <= TOP_LEVEL && k < j
    ensures k in Spelled(j) <==> HasTerm(j, k)
  {
    hide And, Spelled;
    SpelledHalves(j, k);
    AndNothing(j / 2);
    if j % 2 == 0 {
      EvenLevel(j / 2, k);
    } else {
      OddLevel(j / 2, k);
    }
    if k / 2 < j / 2 {
      SpelledTerm(j / 2, k / 2);
    }
  }

  lemma AndNothing(x: nat)
    ensures And(x, 0) == 0
  {}

  /** In the table, level j has the doubled exponents of level j / 2; an odd level those with one added as well. */
  lemma SpelledHalves(j: nat, k: nat)
    requires 1 <= j <= TOP_LEVEL && k < j
    ensures k in Spelled(j) <==> (j % 2 == 0 ==> k % 2 == 0) && (k / 2 == j / 2 || k / 2 in Spelled(j / 2))
  {
    hide Spelled;
    if j == 1 {
      FirstLevel();
    } else if j % 2 == 0 {
      EvenHalf(j / 2, k);
    } else {
      OddHalf(j / 2, k);
    }
  }

  lemma FirstLevel()
    ensures Spelled(1) == {0}
  {}

  lemma EvenHalf(h: nat, k: nat)
    requires 1 <= h <= TOP_LEVEL / 2 && k < 2 * h
    ensures k in Spelled(2 * h) <==> k % 2 == 0 && k / 2 in Spelled(h)
  {
    match h {
      case 1 => assert Spelled(1) == {0};
      case 2 => assert Spelled(2) == {0};
      case 3 => assert Spelled(3) == {0, 1, 2};
      case 4 => assert Spelled(4) == {0};
      case 5 => assert Spelled(5) == {0, 1, 4};
      case 6 => assert Spelled(6) == {0, 2, 4};
      case 7 => assert Spelled(7) == {0, 1, 2, 3, 4, 5, 6};
      case 8 => assert Spelled(8) == {0};
      case 9 => assert Spelled(9) == {0, 1, 8};
      case 10 => assert Spelled(10) == {0, 2, 8};
      case 11 => assert Spelled(11) == {0, 1, 2, 3, 8, 9, 10};
      case 12 => assert Spelled(12) == {0, 4, 8};
      case 13 => assert Spelled(13) == {0, 1, 4, 5, 8, 9, 12};
      case 14 => assert Spelled(14) == {0, 2, 4, 6, 8, 10, 12};
      case 15 => assert Spelled(15) == {0, 1, 2, 3, 4, 5, 6, 7, 8, 9, 10, 11, 12, 13, 14};
    }
  }

  lemma OddHalf(h: nat, k: nat)
    requires 1 <= h < TOP_LEVEL / 2 && k < 2 * h + 1
    ensures k in Spelled(2 * h + 1) <==> k / 2 == h || k / 2 in Spelled(h)
  {
    match h {
      case 1 => assert Spelled(1) == {0};
      case 2 => assert Spelled(2) == {0};
      case 3 => assert Spelled(3) == {0, 1, 2};
      case 4 => assert Spelled(4) == {0};
      case 5 => assert Spelled(5) == {0, 1, 4};
      case 6 => assert Spelled(6) == {0, 2, 4};
      case 7 => assert Spelled(7) == {0, 1, 2, 3, 4, 5, 6};
      case 8 => assert Spelled(8) == {0};
      case 9 => assert Spelled(9) == {0, 1, 8};
      case 10 => assert Spelled(10) == {0, 2, 8};
      case 11 => assert Spelled(11) == {0, 1, 2, 3, 8, 9, 10};
      case 12 => assert Spelled(12) == {0, 4, 8};
      case 13 => assert Spelled(13) == {0, 1, 4, 5, 8, 9, 12};
      case 14 => assert Spelled(14) == {0, 2, 4, 6, 8, 10, 12};
    }
  }

  /** Entry i of a block of 2 n with the entries at the offsets added, as far as they lie in the upper half. */
  function Gather<V>(xor: (V, V) -> V, s: seq<V>, i: nat, n: nat, ds: seq<nat>): V
    requires |s| == 2 * n && i < 2 * n
  {
    if ds == [] then s[i] else
    var rest := Gather(xor, s, i, n, ds[..|ds| - 1]);
    var k := i + ds[|ds| - 1];
    if n <= k < 2 * n then xor(rest, s[k]) else rest
  }

  /** The block whose lower and upper half are remainder and quotient, multiplied out. */
  function Expanded<V>(xor: (V, V) -> V, s: seq<V>, n: nat, ds: seq<nat>): (r: seq<V>)
    requires |s| == 2 * n
    ensures |r| == |s|
  {
    seq(2 * n, i requires 0 <= i < 2 * n => Gather(xor, s, i, n, ds))
  }

  // What multiplying out means.

  /** The coefficient of x^i in x^e h(x). */
  ghost function Shifted<V>(vzero: V, h: seq<V>, e: nat, i: nat): V {
    if e <= i < e + |h| then h[i - e] else vzero
  }

  /** The coefficient of x^i in the product of h with the sum of the powers of the divisor: x^n and the x^(n - d). */
  ghost function ProductAt<V>(vzero: V, xor: (V, V) -> V, h: seq<V>, n: nat, ds: seq<nat>, i: nat): V
    requires GoodOffsets(ds, n)
  {
    if ds == [] then Shifted(vzero, h, n, i)
    else xor(ProductAt(vzero, xor, h, n, ds[..|ds| - 1], i), Shifted(vzero, h, n - ds[|ds| - 1], i))
  }

  /** One level is a division with remainder: old = low + divisor * high, coefficient by coefficient. */
  lemma {:induction false} ExpandedIsProduct<V(!new)>(vzero: V, xor: (V, V) -> V, s: seq<V>, n: nat, ds: seq<nat>,
    i: nat)
    requires XorLaws(vzero, xor) && |s| == 2 * n && i < 2 * n && GoodOffsets(ds, n)
    ensures Gather(xor, s, i, n, ds) == xor(Shifted(vzero, s[..n], 0, i), ProductAt(vzero, xor, s[n..], n, ds, i))
  {
    hide XorLaws;
    var low := Shifted(vzero, s[..n], 0, i);
    if ds == [] {
      XorZero(vzero, xor, s[i]);
    } else {
      var init, d := ds[..|ds| - 1], ds[|ds| - 1];
      ExpandedIsProduct(vzero, xor, s, n, init, i);
      var product := ProductAt(vzero, xor, s[n..], n, init, i);
      XorAssoc(vzero, xor, low, product, Shifted(vzero, s[n..], n - d, i));
      XorZero(vzero, xor, product);
    }
  }

  // Undoing one block.

  lemma {:induction false} GatherAgree<V>(xor: (V, V) -> V, s: seq<V>, t: seq<V>, i: nat, n: nat, ds: seq<nat>)
    requires |s| == |t| == 2 * n && i < 2 * n && forall q :: i <= q < 2 * n ==> s[q] == t[q]
    ensures Gather(xor, s, i, n, ds) == Gather(xor, t, i, n, ds)
  {
    if ds != [] {
      GatherAgree(xor, s, t, i, n, ds[..|ds| - 1]);
    }
  }

  /** Adding the same entries twice gives the entry back. */
  lemma {:induction false} GatherTwice<V(!new)>(
    vzero: V, xor: (V, V) -> V, s: seq<V>, i: nat, n: nat, ds: seq<nat>, v: V)
    requires XorLaws(vzero, xor) && |s| == 2 * n && i < 2 * n && GoodOffsets(ds, n)
    ensures xor(Gather(xor, s[i := v], i, n, ds), v) == xor(Gather(xor, s, i, n, ds), s[i])
  {
    hide XorLaws;
    if ds == [] {
      XorZero(vzero, xor, v);
      XorZero(vzero, xor, s[i]);
    } else {
      var init, k := ds[..|ds| - 1], i + ds[|ds| - 1];
      GatherTwice(vzero, xor, s, i, n, init, v);
      if n <= k < 2 * n {
        XorMove(vzero, xor, Gather(xor, s[i := v], i, n, init), s[k], v);
        XorMove(vzero, xor, Gather(xor, s, i, n, init), s[k], s[i]);
      }
    }
  }

  lemma GatherRestores<V(!new)>(vzero: V, xor: (V, V) -> V, s: seq<V>, i: nat, n: nat, ds: seq<nat>)
    requires XorLaws(vzero, xor) && |s| == 2 * n && i < 2 * n && GoodOffsets(ds, n)
    ensures Gather(xor, s[i := Gather(xor, s, i, n, ds)], i, n, ds) == s[i]
  {
    hide XorLaws, Gather;
    var v := Gather(xor, s, i, n, ds);
    GatherTwice(vzero, xor, s, i, n, ds, v);
    var w := Gather(xor, s[i := v], i, n, ds);
    XorComm(vzero, xor, v, s[i]);
    XorMove(vzero, xor, w, v, xor(s[i], v));
    XorCancel(vzero, xor, s[i], v);
  }

  /** Different blocks multiply out differently: quotient and remainder are unique. */
  lemma {:induction false} ExpandedFrom<V(!new)>(
    vzero: V, xor: (V, V) -> V, s: seq<V>, t: seq<V>, n: nat, ds: seq<nat>, i: nat)
    requires XorLaws(vzero, xor) && |s| == |t| == 2 * n && i <= 2 * n && GoodOffsets(ds, n)
    requires Expanded(xor, s, n, ds) == Expanded(xor, t, n, ds)
    ensures s[i..] == t[i..]
    decreases 2 * n - i
  {
    hide XorLaws, Gather;
    if i < 2 * n {
      ExpandedFrom(vzero, xor, s, t, n, ds, i + 1);
      var u := s[i := t[i]];
      forall q | i <= q < 2 * n
        ensures u[q] == t[q]
      {
        assert q > i ==> s[q] == s[i + 1..][q - (i + 1)] && t[q] == t[i + 1..][q - (i + 1)];
      }
      GatherAgree(xor, u, t, i, n, ds);
      GatherTwice(vzero, xor, s, i, n, ds, t[i]);
      var g := Gather(xor, s, i, n, ds);
      assert Expanded(xor, s, n, ds)[i] == g && Expanded(xor, t, n, ds)[i] == Gather(xor, t, i, n, ds);
      XorMove(vzero, xor, g, t[i], xor(g, s[i]));
      XorComm(vzero, xor, g, t[i]);
      XorComm(vzero, xor, g, s[i]);
      XorCancel(vzero, xor, t[i], g);
      XorCancel(vzero, xor, s[i], g);
      assert s[i..] == [s[i]] + s[i + 1..] && t[i..] == [t[i]] + t[i + 1..];
    }
  }

  lemma ExpandedInjective<V(!new)>(vzero: V, xor: (V, V) -> V, s: seq<V>, t: seq<V>, n: nat, ds: seq<nat>)
    requires XorLaws(vzero, xor) && |s| == |t| == 2 * n && GoodOffsets(ds, n)
    requires Expanded(xor, s, n, ds) == Expanded(xor, t, n, ds)
    ensures s == t
  {
    ExpandedFrom(vzero, xor, s, t, n, ds, 0);
    assert s[0..] == s && t[0..] == t;
  }

  // The two loops over one block of the array.

  /** The block of a from `at` on. */
  ghost function Block<V>(a: seq<V>, at: nat, n: nat): (s: seq<V>)
    requires at + 2 * n <= |a|
    ensures |s| == 2 * n
  {
    a[at..at + 2 * n]
  }

  /** Adds to entry i of the block the entries at the offsets that lie in the upper half. */
  method AddOffsets<V>(xor: (V, V) -> V, a: array<V>, at: nat, n: nat, ds: seq<nat>, i: nat)
    requires at + 2 * n <= a.Length && i < 2 * n && GoodOffsets(ds, n)
    modifies a
    ensures a[at + i] == Gather(xor, Block(old(a[..]), at, n), i, n, ds)
    ensures forall q :: 0 <= q < a.Length && q != at + i ==> a[q] == old(a[q])
  {
    ghost var s := Block(a[..], at, n);
    assert ds[..0] == [];
    for k := 0 to |ds|
      invariant a[at + i] == Gather(xor, s, i, n, ds[..k])
      invariant forall q :: 0 <= q < a.Length && q != at + i ==> a[q] == old(a[q])
    {
      assert ds[..k + 1][..k] == ds[..k];
      if n <= i + ds[k] < 2 * n {
        assert s[i + ds[k]] == a[at + i + ds[k]];
        a[at + i] := xor(a[at + i], a[at + i + ds[k]]);
      }
    }
    assert ds[..|ds|] == ds;
  }

  /** Multiplies out, from the lowest entry up. */
  method ExpandBlock<V>(xor: (V, V) -> V, a: array<V>, at: nat, n: nat, ds: seq<nat>)
    requires at + 2 * n <= a.Length && GoodOffsets(ds, n)
    modifies a
    ensures Block(a[..], at, n) == Expanded(xor, Block(old(a[..]), at, n), n, ds)
    ensures forall q :: 0 <= q < a.Length && !(at <= q < at + 2 * n) ==> a[q] == old(a[q])
  {
    hide Gather;
    ghost var s := Block(a[..], at, n);
    for i := 0 to 2 * n
      invariant forall q :: 0 <= q < i ==> a[at + q] == Gather(xor, s, q, n, ds)
      invariant forall q :: i <= q < 2 * n ==> a[at + q] == s[q]
      invariant forall q :: 0 <= q < a.Length && !(at <= q < at + 2 * n) ==> a[q] == old(a[q])
    {
      GatherAgree(xor, Block(a[..], at, n), s, i, n, ds);
      AddOffsets(xor, a, at, n, ds, i);
    }
  }

  /** Divides, from the highest entry down. */
  method ReduceBlock<V(!new)>(ghost vzero: V, xor: (V, V) -> V, a: array<V>, at: nat, n: nat, ds: seq<nat>)
    requires XorLaws(vzero, xor) && at + 2 * n <= a.Length && GoodOffsets(ds, n)
    modifies a
    ensures Expanded(xor, Block(a[..], at, n), n, ds) == Block(old(a[..]), at, n)
    ensures forall q :: 0 <= q < a.Length && !(at <= q < at + 2 * n) ==> a[q] == old(a[q])
  {
    hide Gather, XorLaws;
    ghost var s := Block(a[..], at, n);
    for i := 2 * n downto 0
      invariant forall q :: i <= q < 2 * n ==> Gather(xor, Block(a[..], at, n), q, n, ds) == s[q]
      invariant forall q :: 0 <= q < i ==> a[at + q] == s[q]
      invariant forall q :: 0 <= q < a.Length && !(at <= q < at + 2 * n) ==> a[q] == old(a[q])
    {
      ghost var before := Block(a[..], at, n);
      GatherRestores(vzero, xor, before, i, n, ds);
      AddOffsets(xor, a, at, n, ds, i);
      assert Block(a[..], at, n) == before[i := Gather(xor, before, i, n, ds)];
      forall q | i + 1 <= q < 2 * n
        ensures Gather(xor, Block(a[..], at, n), q, n, ds) == s[q]
      {
        GatherAgree(xor, Block(a[..], at, n), before, q, n, ds);
      }
    }
  }

  // Levels: every block of the vector.

  function ExpandLevel<V>(xor: (V, V) -> V, s: seq<V>, n: nat, ds: seq<nat>): (r: seq<V>)
    requires n >= 1
    ensures |r| == |s|
  {
    if |s| < 2 * n then s
    else Expanded(xor, s[..2 * n], n, ds) + ExpandLevel(xor, s[2 * n..], n, ds)
  }

  lemma {:induction false} LevelAppend<V>(xor: (V, V) -> V, x: seq<V>, y: seq<V>, k: nat, n: nat, ds: seq<nat>)
    requires n >= 1 && |x| == k * (2 * n) && |y| == 2 * n
    ensures ExpandLevel(xor, x + y, n, ds) == ExpandLevel(xor, x, n, ds) + Expanded(xor, y, n, ds)
  {
    hide Expanded;
    if k == 0 {
      assert x + y == y && y[..2 * n] == y && y[2 * n..] == [];
    } else {
      Next(k, 2 * n);
      MulLe(1, k, 2 * n);
      assert (x + y)[..2 * n] == x[..2 * n] && (x + y)[2 * n..] == x[2 * n..] + y;
      LevelAppend(xor, x[2 * n..], y, k - 1, n, ds);
    }
  }

  lemma LevelShort<V>(xor: (V, V) -> V, s: seq<V>, n: nat, ds: seq<nat>)
    requires n >= 1 && |s| < 2 * n
    ensures ExpandLevel(xor, s, n, ds) == s
  {}

  /** The level undone on the first k blocks. */
  ghost predicate LevelDone<V>(xor: (V, V) -> V, a: seq<V>, s: seq<V>, k: nat, n: nat, ds: seq<nat>, up: bool)
    requires n >= 1 && |a| == |s| && k * (2 * n) <= |a|
  {
    && (if up then a[..k * (2 * n)] == ExpandLevel(xor, s[..k * (2 * n)], n, ds)
        else ExpandLevel(xor, a[..k * (2 * n)], n, ds) == s[..k * (2 * n)])
    && a[k * (2 * n)..] == s[k * (2 * n)..]
  }

  /** Doing one more block. */
  lemma LevelNext<V>(xor: (V, V) -> V, a: seq<V>, a': seq<V>, s: seq<V>, k: nat, n: nat, ds: seq<nat>, up: bool)
    requires n >= 1 && |a| == |a'| == |s| && k * (2 * n) + 2 * n <= |a| && (k + 1) * (2 * n) == k * (2 * n) + 2 * n
    requires LevelDone(xor, a, s, k, n, ds, up)
    requires var at := k * (2 * n);
      && (if up then a'[at..at + 2 * n] == Expanded(xor, a[at..at + 2 * n], n, ds)
          else Expanded(xor, a'[at..at + 2 * n], n, ds) == a[at..at + 2 * n])
      && a'[..at] == a[..at] && a'[at + 2 * n..] == a[at + 2 * n..]
    ensures LevelDone(xor, a', s, k + 1, n, ds, up)
  {
    hide Expanded, ExpandLevel;
    var at, m := k * (2 * n), 2 * n;
    assert a[at..at + m] == a[at..][..m] && s[at..at + m] == s[at..][..m];
    assert a[at + m..] == a[at..][m..] && s[at + m..] == s[at..][m..];
    LevelAppend(xor, s[..at], s[at..at + m], k, n, ds);
    LevelAppend(xor, a'[..at], a'[at..at + m], k, n, ds);
    assert s[..at + m] == s[..at] + s[at..at + m];
    assert a'[..at + m] == a'[..at] + a'[at..at + m];
  }

  /** The part of the array that a conversion works on. */
  ghost function Part<V>(a: seq<V>, lo: nat, len: nat): (s: seq<V>)
    requires lo + len <= |a|
    ensures |s| == len
  {
    a[lo..lo + len]
  }

  /** A part is a number of whole blocks, or too short for one. */
  ghost predicate WholeBlocks(len: nat, n: nat, blocks: nat) {
    n >= 1 && (len == blocks * (2 * n) || (len <= n && blocks == 0))
  }

  /** The old and the new part of a level, in either direction. */
  ghost predicate LevelMaps<V>(xor: (V, V) -> V, before: seq<V>, after: seq<V>, n: nat, ds: seq<nat>, up: bool)
    requires n >= 1
  {
    if up then after == ExpandLevel(xor, before, n, ds) else ExpandLevel(xor, after, n, ds) == before
  }

  lemma LevelStart<V>(xor: (V, V) -> V, s: seq<V>, n: nat, ds: seq<nat>, up: bool)
    requires n >= 1
    ensures 0 * (2 * n) == 0 && LevelDone(xor, s, s, 0, n, ds, up)
  {
    assert s[..0] == [] && s[0..] == s;
  }

  lemma LevelEnd<V>(xor: (V, V) -> V, a: seq<V>, s: seq<V>, k: nat, n: nat, ds: seq<nat>, up: bool)
    requires n >= 1 && |a| == |s| && k * (2 * n) <= |a| && LevelDone(xor, a, s, k, n, ds, up)
    requires k * (2 * n) == |a| || (k == 0 && |a| < 2 * n)
    ensures LevelMaps(xor, s, a, n, ds, up)
  {
    hide Expanded;
    if k * (2 * n) == |a| {
      assert a[..|a|] == a && s[..|s|] == s;
    } else {
      assert a[0..] == a && s[0..] == s;
      LevelShort(xor, a, n, ds);
      LevelShort(xor, s, n, ds);
    }
  }

  /** What one block step leaves of the part: the block mapped, the rest kept. */
  ghost predicate BlockMaps<V>(
    xor: (V, V) -> V, before: seq<V>, after: seq<V>, at: nat, n: nat, ds: seq<nat>, up: bool)
    requires |before| == |after| && at + 2 * n <= |before|
  {
    && (if up then after[at..at + 2 * n] == Expanded(xor, before[at..at + 2 * n], n, ds)
        else Expanded(xor, after[at..at + 2 * n], n, ds) == before[at..at + 2 * n])
    && after[..at] == before[..at] && after[at + 2 * n..] == before[at + 2 * n..]
  }

  lemma PartBlock<V>(a: seq<V>, lo: nat, len: nat, at: nat, n: nat)
    requires lo + len <= |a| && at + 2 * n <= len
    ensures Part(a, lo, len)[at..at + 2 * n] == Block(a, lo + at, n)
  {
    var x, y := Part(a, lo, len)[at..at + 2 * n], Block(a, lo + at, n);
    forall q | 0 <= q < 2 * n
      ensures x[q] == y[q]
    {
      assert x[q] == a[lo + at + q];
    }
  }

  /** One block of the part, in either direction. */
  method OneBlock<V(!new)>(
    ghost vzero: V, xor: (V, V) -> V, a: array<V>, lo: nat, len: nat, at: nat, n: nat, ds: seq<nat>, up: bool)
    requires XorLaws(vzero, xor) && lo + len <= a.Length && GoodOffsets(ds, n) && at + 2 * n <= len
    modifies a
    ensures BlockMaps(xor, Part(old(a[..]), lo, len), Part(a[..], lo, len), at, n, ds, up)
    ensures forall q :: 0 <= q < a.Length && !(lo <= q < lo + len) ==> a[q] == old(a[q])
  {
    hide XorLaws, Expanded;
    ghost var before := Part(a[..], lo, len);
    PartBlock(a[..], lo, len, at, n);
    if up {
      ExpandBlock(xor, a, lo + at, n, ds);
    } else {
      ReduceBlock(vzero, xor, a, lo + at, n, ds);
    }
    ghost var after := Part(a[..], lo, len);
    PartBlock(a[..], lo, len, at, n);
    assert after[..at] == before[..at];
    assert after[at + 2 * n..] == before[at + 2 * n..];
  }

  /** One level of the conversion: every block of 2 n of the part, upwards or downwards. */
  method Level<V(!new)>(
    ghost vzero: V, xor: (V, V) -> V, a: array<V>, lo: nat, len: nat, n: nat, ds: seq<nat>, up: bool, ghost blocks: nat)
    requires XorLaws(vzero, xor) && lo + len <= a.Length && GoodOffsets(ds, n) && WholeBlocks(len, n, blocks)
    modifies a
    ensures LevelMaps(xor, Part(old(a[..]), lo, len), Part(a[..], lo, len), n, ds, up)
    ensures forall q :: 0 <= q < a.Length && !(lo <= q < lo + len) ==> a[q] == old(a[q])
  {
    hide XorLaws, ExpandLevel, LevelDone, LevelMaps, BlockMaps, Part;
    ghost var s := Part(a[..], lo, len);
    ghost var k := 0;
    LevelStart(xor, s, n, ds, up);
    var offset := n;
    while offset < len
      invariant offset == k * (2 * n) + n && k <= blocks && k * (2 * n) <= len
      invariant LevelDone(xor, Part(a[..], lo, len), s, k, n, ds, up)
      invariant forall q :: 0 <= q < a.Length && !(lo <= q < lo + len) ==> a[q] == old(a[q])
      decreases len - offset
    {
      BlockFits(len, n, blocks, k);
      ghost var before := Part(a[..], lo, len);
      OneBlock(vzero, xor, a, lo, len, offset - n, n, ds, up);
      BlockDone(xor, before, Part(a[..], lo, len), s, k, n, ds, up, offset - n);
      offset := offset + 2 * n;
      k := k + 1;
    }
    NoBlockLeft(len, n, blocks, k);
    LevelEnd(xor, Part(a[..], lo, len), s, k, n, ds, up);
  }

  lemma BlockDone<V>(
    xor: (V, V) -> V, a: seq<V>, a': seq<V>, s: seq<V>, k: nat, n: nat, ds: seq<nat>, up: bool, at: nat)
    requires n >= 1 && |a| == |a'| == |s| && at == k * (2 * n) && at + 2 * n <= |a|
    requires (k + 1) * (2 * n) == at + 2 * n
    requires LevelDone(xor, a, s, k, n, ds, up) && BlockMaps(xor, a, a', at, n, ds, up)
    ensures LevelDone(xor, a', s, k + 1, n, ds, up)
  {
    hide Expanded, ExpandLevel;
    LevelNext(xor, a, a', s, k, n, ds, up);
  }

  lemma BlockFits(len: nat, n: nat, blocks: nat, k: nat)
    requires WholeBlocks(len, n, blocks) && k <= blocks && k * (2 * n) + n < len
    ensures k * (2 * n) + 2 * n <= len && (k + 1) * (2 * n) == k * (2 * n) + 2 * n && k + 1 <= blocks
  {
    Next(k, 2 * n);
    if k < blocks {
      MulLe(k + 1, blocks, 2 * n);
    }
  }

  lemma NoBlockLeft(len: nat, n: nat, blocks: nat, k: nat)
    requires WholeBlocks(len, n, blocks) && k <= blocks && k * (2 * n) <= len <= k * (2 * n) + n
    ensures k * (2 * n) == len || (k == 0 && len < 2 * n)
  {
    if k < blocks {
      Next(k, 2 * n);
      MulLe(k + 1, blocks, 2 * n);
    }
  }

  // Runs of levels.

  /** Multiplying out levels `from` to `end` - 1, the lowest first. */
  function ExpandLevels<V>(xor: (V, V) -> V, s: seq<V>, from: nat, end: nat): (r: seq<V>)
    ensures |r| == |s|
    decreases end - from
  {
    if from >= end then s else ExpandLevels(xor, ExpandLevel(xor, s, Pow2(from), Offsets(from)), from + 1, end)
  }

  ghost function BlocksOf(logn: nat, j: nat): nat {
    if j < logn then Pow2(logn - j - 1) else 0
  }

  lemma PowerBlocks(logn: nat, j: nat)
    ensures WholeBlocks(Pow2(logn), Pow2(j), BlocksOf(logn, j))
  {
    if j < logn {
      Pow2Plus(logn - j - 1, j + 1);
    } else if j > logn {
      Pow2Grows(logn, j);
    }
  }

  ghost predicate LevelsMap<V>(xor: (V, V) -> V, before: seq<V>, after: seq<V>, from: nat, end: nat, up: bool) {
    if up then after == ExpandLevels(xor, before, from, end) else ExpandLevels(xor, after, from, end) == before
  }

  lemma LevelsFirst<V>(xor: (V, V) -> V, s: seq<V>, j: nat, end: nat)
    requires j < end
    ensures ExpandLevels(xor, s, j, end) == ExpandLevels(xor, ExpandLevel(xor, s, Pow2(j), Offsets(j)), j + 1, end)
  {}

  /** Levels `from` to `end` - 1 of a part of 2^logn entries: upwards multiplying out, downwards dividing. */
  method Levels<V(!new)>(
    ghost vzero: V, xor: (V, V) -> V, a: array<V>, lo: nat, logn: nat, from: nat, end: nat, up: bool)
    requires XorLaws(vzero, xor) && lo + Pow2(logn) <= a.Length && from <= end
    modifies a
    ensures LevelsMap(xor, Part(old(a[..]), lo, Pow2(logn)), Part(a[..], lo, Pow2(logn)), from, end, up)
    ensures forall q :: 0 <= q < a.Length && !(lo <= q < lo + Pow2(logn)) ==> a[q] == old(a[q])
  {
    hide XorLaws, Pow2, ExpandLevel, ExpandLevels, Offsets, Part;
    ghost var s := Part(a[..], lo, Pow2(logn));
    NoLevels(xor, s, end);
    if up {
      for j := from to end
        invariant ExpandLevels(xor, Part(a[..], lo, Pow2(logn)), j, end) == ExpandLevels(xor, s, from, end)
        invariant forall q :: 0 <= q < a.Length && !(lo <= q < lo + Pow2(logn)) ==> a[q] == old(a[q])
      {
        LevelsFirst(xor, Part(a[..], lo, Pow2(logn)), j, end);
        OneLevel(vzero, xor, a, lo, logn, j, up);
      }
      NoLevels(xor, Part(a[..], lo, Pow2(logn)), end);
    } else {
      for j := end downto from
        invariant ExpandLevels(xor, Part(a[..], lo, Pow2(logn)), j, end) == s
        invariant forall q :: 0 <= q < a.Length && !(lo <= q < lo + Pow2(logn)) ==> a[q] == old(a[q])
      {
        OneLevel(vzero, xor, a, lo, logn, j, up);
        LevelsFirst(xor, Part(a[..], lo, Pow2(logn)), j, end);
      }
    }
  }

  lemma NoLevels<V>(xor: (V, V) -> V, s: seq<V>, end: nat)
    ensures ExpandLevels(xor, s, end, end) == s
  {}

  method OneLevel<V(!new)>(ghost vzero: V, xor: (V, V) -> V, a: array<V>, lo: nat, logn: nat, j: nat, up: bool)
    requires XorLaws(vzero, xor) && lo + Pow2(logn) <= a.Length
    modifies a
    ensures LevelMaps(xor, Part(old(a[..]), lo, Pow2(logn)), Part(a[..], lo, Pow2(logn)), Pow2(j), Offsets(j), up)
    ensures forall q :: 0 <= q < a.Length && !(lo <= q < lo + Pow2(logn)) ==> a[q] == old(a[q])
  {
    hide XorLaws, Pow2, ExpandLevel, Part, LevelMaps;
    PowerBlocks(logn, j);
    OffsetsInRange(j, j);
    Level(vzero, xor, a, lo, Pow2(logn), Pow2(j), Offsets(j), up, BlocksOf(logn, j));
  }

  // Different vectors multiply out differently, level by level.

  lemma {:induction false} LevelInjective<V(!new)>(
    vzero: V, xor: (V, V) -> V, s: seq<V>, t: seq<V>, n: nat, ds: seq<nat>)
    requires XorLaws(vzero, xor) && n >= 1 && |s| == |t| && GoodOffsets(ds, n)
    requires ExpandLevel(xor, s, n, ds) == ExpandLevel(xor, t, n, ds)
    ensures s == t
    decreases |s|
  {
    hide XorLaws, Expanded;
    if |s| >= 2 * n {
      var x, y := Expanded(xor, s[..2 * n], n, ds), Expanded(xor, t[..2 * n], n, ds);
      assert (x + ExpandLevel(xor, s[2 * n..], n, ds))[..2 * n] == x;
      assert (y + ExpandLevel(xor, t[2 * n..], n, ds))[..2 * n] == y;
      assert (x + ExpandLevel(xor, s[2 * n..], n, ds))[2 * n..] == ExpandLevel(xor, s[2 * n..], n, ds);
      assert (y + ExpandLevel(xor, t[2 * n..], n, ds))[2 * n..] == ExpandLevel(xor, t[2 * n..], n, ds);
      ExpandedInjective(vzero, xor, s[..2 * n], t[..2 * n], n, ds);
      LevelInjective(vzero, xor, s[2 * n..], t[2 * n..], n, ds);
      assert s == s[..2 * n] + s[2 * n..] && t == t[..2 * n] + t[2 * n..];
    }
  }

  lemma {:induction false} LevelsInjective<V(!new)>(
    vzero: V, xor: (V, V) -> V, s: seq<V>, t: seq<V>, from: nat, end: nat)
    requires XorLaws(vzero, xor) && |s| == |t| && ExpandLevels(xor, s, from, end) == ExpandLevels(xor, t, from, end)
    ensures s == t
    decreases end - from
  {
    hide XorLaws, Pow2, ExpandLevel, Offsets;
    if from < end {
      var n, ds := Pow2(from), Offsets(from);
      GoodLevel(from);
      LevelsInjective(vzero, xor, ExpandLevel(xor, s, n, ds), ExpandLevel(xor, t, n, ds), from + 1, end);
      LevelInjective(vzero, xor, s, t, n, ds);
    }
  }

  lemma GoodLevel(j: nat)
    ensures GoodOffsets(Offsets(j), Pow2(j))
  {
    OffsetsInRange(j, j);
  }

  // The drivers: low levels on chunks of 2^16, middle ones on chunks of 2^19, high ones on the whole vector.

  /** Where chunk c starts. */
  function ChunkStart(c: nat, len: nat): nat {
    c * len
  }

  ghost predicate ChunksMap<V>(
    xor: (V, V) -> V, before: seq<V>, after: seq<V>, chunks: nat, len: nat, from: nat, end: nat, up: bool)
    requires |before| == |after|
  {
    forall c :: 0 <= c < chunks ==> ChunkMaps(xor, before, after, ChunkStart(c, len), len, from, end, up)
  }

  ghost predicate ChunkMaps<V>(
    xor: (V, V) -> V, before: seq<V>, after: seq<V>, lo: nat, len: nat, from: nat, end: nat, up: bool)
    requires |before| == |after|
  {
    lo + len <= |before| && LevelsMap(xor, Part(before, lo, len), Part(after, lo, len), from, end, up)
  }

  lemma ChunkOrder(c: nat, d: nat, chunks: nat, len: nat)
    requires c < chunks && d < chunks
    ensures ChunkStart(c, len) + len <= ChunkStart(chunks, len)
    ensures c < d ==> ChunkStart(c, len) + len <= ChunkStart(d, len)
  {
    Next(c, len);
    MulLe(c + 1, chunks, len);
    if c < d {
      MulLe(c + 1, d, len);
    }
  }

  /** A chunk that was not written keeps its relation. */
  lemma ChunkKept<V>(
    xor: (V, V) -> V, before: seq<V>, a: seq<V>, a': seq<V>, lo: nat, len: nat, from: nat, end: nat, up: bool)
    requires |before| == |a| == |a'| && ChunkMaps(xor, before, a, lo, len, from, end, up)
    requires forall q :: lo <= q < lo + len ==> a'[q] == a[q]
    ensures ChunkMaps(xor, before, a', lo, len, from, end, up)
  {
    assert Part(a', lo, len) == Part(a, lo, len);
  }

  /** Runs of levels on consecutive chunks of 2^logn entries. */
  method Chunks<V(!new)>(
    ghost vzero: V, xor: (V, V) -> V, a: array<V>, chunks: nat, logn: nat, from: nat, end: nat, up: bool)
    requires XorLaws(vzero, xor) && a.Length == ChunkStart(chunks, Pow2(logn)) && from <= end
    modifies a
    ensures ChunksMap(xor, old(a[..]), a[..], chunks, Pow2(logn), from, end, up)
  {
    hide XorLaws, Pow2, ExpandLevels, ChunkStart, LevelsMap;
    var len := Pow2(logn);
    ghost var s := a[..];
    for c := 0 to chunks
      invariant forall d :: 0 <= d < c ==> ChunkMaps(xor, s, a[..], ChunkStart(d, len), len, from, end, up)
      invariant forall q :: ChunkStart(c, len) <= q < a.Length ==> a[q] == s[q]
    {
      ghost var before := a[..];
      ChunkOrder(c, c, chunks, len);
      NextChunk(c, len);
      assert Part(before, ChunkStart(c, len), len) == Part(s, ChunkStart(c, len), len);
      Levels(vzero, xor, a, ChunkStart(c, len), logn, from, end, up);
      forall d | 0 <= d < c
        ensures ChunkMaps(xor, s, a[..], ChunkStart(d, len), len, from, end, up)
      {
        ChunkOrder(d, c, chunks, len);
        ChunkKept(xor, s, before, a[..], ChunkStart(d, len), len, from, end, up);
      }
    }
  }

  lemma NextChunk(c: nat, len: nat)
    ensures ChunkStart(c + 1, len) == ChunkStart(c, len) + len
  {
    Next(c, len);
  }

  /** Vectors that agree on every chunk are equal. */
  lemma ChunksEqual<V>(s: seq<V>, t: seq<V>, chunks: nat, len: nat)
    requires |s| == |t| == ChunkStart(chunks, len) && len >= 1
    requires forall c :: 0 <= c < chunks ==>
      ChunkStart(c, len) + len <= |s| && Part(s, ChunkStart(c, len), len) == Part(t, ChunkStart(c, len), len)
    ensures s == t
  {
    hide Part, ChunkStart;
    forall i | 0 <= i < |s|
      ensures s[i] == t[i]
    {
      var c, k := ChunkOf(i, chunks, len);
      PartAt(s, ChunkStart(c, len), len, k);
      PartAt(t, ChunkStart(c, len), len, k);
    }
  }

  lemma ChunkOf(i: nat, chunks: nat, len: nat) returns (c: nat, k: nat)
    requires len >= 1 && i < ChunkStart(chunks, len)
    ensures c < chunks && k < len && i == ChunkStart(c, len) + k
  {
    c, k := i / len, i % len;
    DivMod(i, len);
    DivBound(i, len, chunks);
  }

  lemma PartAt<V>(s: seq<V>, lo: nat, len: nat, k: nat)
    requires lo + len <= |s| && k < len
    ensures Part(s, lo, len)[k] == s[lo + k]
  {}

  const LOW_CHUNK := 16
  const MIDDLE_CHUNK := 19
  const TOP_LEVEL := 30

  /** The exponent of the chunk length, and the number of chunks, of a vector of 2^logn entries. */
  function ChunkLog(logn: nat, k: nat): nat {
    if logn < k then logn else k
  }

  function ChunkCount(logn: nat, k: nat): nat {
    if logn < k then 1 else Pow2(logn - k)
  }

  lemma ChunksCover(logn: nat, k: nat)
    ensures ChunkStart(ChunkCount(logn, k), Pow2(ChunkLog(logn, k))) == Pow2(logn)
  {
    if logn >= k {
      Pow2Plus(logn - k, k);
    }
  }

  /** y is x multiplied out, through the two intermediate vectors: low levels, middle levels, high levels. */
  ghost predicate MultipliesOut<V>(xor: (V, V) -> V, x: seq<V>, m1: seq<V>, m2: seq<V>, y: seq<V>, logn: nat) {
    && |x| == |m1| == |m2| == |y| == Pow2(logn)
    && ChunksMap(xor, x, m1, ChunkCount(logn, LOW_CHUNK), Pow2(ChunkLog(logn, LOW_CHUNK)), 1, LOW_CHUNK, true)
    && ChunksMap(xor, m1, m2, ChunkCount(logn, MIDDLE_CHUNK), Pow2(ChunkLog(logn, MIDDLE_CHUNK)),
                 LOW_CHUNK, MIDDLE_CHUNK, true)
    && ExpandLevels(xor, m2, MIDDLE_CHUNK, TOP_LEVEL + 1) == y
  }

  lemma ChunksFlip<V>(
    xor: (V, V) -> V, before: seq<V>, after: seq<V>, chunks: nat, len: nat, from: nat, end: nat)
    requires |before| == |after| && ChunksMap(xor, before, after, chunks, len, from, end, false)
    ensures ChunksMap(xor, after, before, chunks, len, from, end, true)
  {
    hide ExpandLevels;
    forall c | 0 <= c < chunks
      ensures ChunkMaps(xor, after, before, ChunkStart(c, len), len, from, end, true)
    {
      assert ChunkMaps(xor, before, after, ChunkStart(c, len), len, from, end, false);
    }
  }

  lemma WholePart<V>(s: seq<V>)
    ensures Part(s, 0, |s|) == s
  {}

  /** To the monomial basis: multiplies the levels out, the lowest first. */
  method ToMono<V(!new)>(ghost vzero: V, xor: (V, V) -> V, a: array<V>, logn: nat) returns (ghost m1: seq<V>,
    ghost m2: seq<V>)
    requires XorLaws(vzero, xor) && a.Length == Pow2(logn) && logn <= TOP_LEVEL
    modifies a
    ensures MultipliesOut(xor, old(a[..]), m1, m2, a[..], logn)
  {
    hide XorLaws, Pow2, ExpandLevels, ChunksMap, ChunkStart;
    ChunksCover(logn, LOW_CHUNK);
    ChunksCover(logn, MIDDLE_CHUNK);
    Chunks(vzero, xor, a, ChunkCount(logn, LOW_CHUNK), ChunkLog(logn, LOW_CHUNK), 1, LOW_CHUNK, true);
    m1 := a[..];
    Chunks(vzero, xor, a, ChunkCount(logn, MIDDLE_CHUNK), ChunkLog(logn, MIDDLE_CHUNK), LOW_CHUNK, MIDDLE_CHUNK, true);
    m2 := a[..];
    Levels(vzero, xor, a, 0, logn, MIDDLE_CHUNK, TOP_LEVEL + 1, true);
    WholePart(m2);
    WholePart(a[..]);
  }

  /** From the monomial basis: divides by the levels, the highest first. */
  method ToLch<V(!new)>(ghost vzero: V, xor: (V, V) -> V, a: array<V>, logn: nat) returns (ghost m1: seq<V>,
    ghost m2: seq<V>)
    requires XorLaws(vzero, xor) && a.Length == Pow2(logn) && logn <= TOP_LEVEL
    modifies a
    ensures MultipliesOut(xor, a[..], m1, m2, old(a[..]), logn)
  {
    hide XorLaws, Pow2, ExpandLevels, ChunksMap, ChunkStart;
    ghost var s := a[..];
    ChunksCover(logn, LOW_CHUNK);
    ChunksCover(logn, MIDDLE_CHUNK);
    Levels(vzero, xor, a, 0, logn, MIDDLE_CHUNK, TOP_LEVEL + 1, false);
    m2 := a[..];
    WholePart(s);
    WholePart(m2);
    Chunks(vzero, xor, a, ChunkCount(logn, MIDDLE_CHUNK), ChunkLog(logn, MIDDLE_CHUNK), LOW_CHUNK, MIDDLE_CHUNK, false);
    m1 := a[..];
    ChunksFlip(xor, m2, m1, ChunkCount(logn, MIDDLE_CHUNK), Pow2(ChunkLog(logn, MIDDLE_CHUNK)), LOW_CHUNK,
      MIDDLE_CHUNK);
    Chunks(vzero, xor, a, ChunkCount(logn, LOW_CHUNK), ChunkLog(logn, LOW_CHUNK), 1, LOW_CHUNK, false);
    ChunksFlip(xor, m1, a[..], ChunkCount(logn, LOW_CHUNK), Pow2(ChunkLog(logn, LOW_CHUNK)), 1, LOW_CHUNK);
  }

  /** Chunk relations determine each side from the other. */
  lemma ChunksDetermine<V(!new)>(
    vzero: V, xor: (V, V) -> V, x: seq<V>, y: seq<V>, x': seq<V>, y': seq<V>, chunks: nat, len: nat, from: nat,
      end: nat)
    requires XorLaws(vzero, xor) && |x| == |y| == |x'| == |y'| == ChunkStart(chunks, len) && len >= 1
    requires ChunksMap(xor, x, y, chunks, len, from, end, true) && ChunksMap(xor, x', y', chunks, len, from, end, true)
    ensures x == x' <==> y == y'
  {
    hide XorLaws, ExpandLevels, ChunkStart, Part;
    forall c | 0 <= c < chunks
      ensures ChunkStart(c, len) + len <= |x|
      ensures Part(x, ChunkStart(c, len), len) == Part(x', ChunkStart(c, len), len) <==>
        Part(y, ChunkStart(c, len), len) == Part(y', ChunkStart(c, len), len)
    {
      var at := ChunkStart(c, len);
      assert ChunkMaps(xor, x, y, at, len, from, end, true) && ChunkMaps(xor, x', y', at, len, from, end, true);
      if Part(y, at, len) == Part(y', at, len) {
        LevelsInjective(vzero, xor, Part(x, at, len), Part(x', at, len), from, end);
      }
    }
    if x == x' {
      ChunksEqual(y, y', chunks, len);
    }
    if y == y' {
      ChunksEqual(x, x', chunks, len);
    }
  }

  /** Multiplying out is a bijection: each side determines the other. */
  lemma ConversionDetermines<V(!new)>(
    vzero: V, xor: (V, V) -> V, x: seq<V>, m1: seq<V>, m2: seq<V>, y: seq<V>,
    x': seq<V>, m1': seq<V>, m2': seq<V>, y': seq<V>, logn: nat)
    requires XorLaws(vzero, xor)
    requires MultipliesOut(xor, x, m1, m2, y, logn) && MultipliesOut(xor, x', m1', m2', y', logn)
    ensures x == x' <==> y == y'
  {
    hide XorLaws, Pow2, ExpandLevels, ChunksMap, ChunkStart;
    ChunksCover(logn, LOW_CHUNK);
    ChunksCover(logn, MIDDLE_CHUNK);
    ChunksDetermine(vzero, xor, x, m1, x', m1', ChunkCount(logn, LOW_CHUNK), Pow2(ChunkLog(logn, LOW_CHUNK)), 1,
      LOW_CHUNK);
    ChunksDetermine(vzero, xor, m1, m2, m1', m2', ChunkCount(logn, MIDDLE_CHUNK), Pow2(ChunkLog(logn, MIDDLE_CHUNK)),
                    LOW_CHUNK, MIDDLE_CHUNK);
    if y == y' {
      LevelsInjective(vzero, xor, m2, m2', MIDDLE_CHUNK, TOP_LEVEL + 1);
    }
  }

  /** Converting there and back gives the vector back, in both orders and for every length up to the top level. */
  method ThereAndBack<V(!new)>(ghost vzero: V, xor: (V, V) -> V, a: array<V>, logn: nat, monoFirst: bool)
    requires XorLaws(vzero, xor) && a.Length == Pow2(logn) && logn <= TOP_LEVEL
    modifies a
    ensures a[..] == old(a[..])
  {
    hide XorLaws, Pow2, MultipliesOut;
    ghost var s := a[..];
    ghost var m1, m2, k1, k2;
    if monoFirst {
      m1, m2 := ToMono(vzero, xor, a, logn);
      ghost var t := a[..];
      k1, k2 := ToLch(vzero, xor, a, logn);
      ConversionDetermines(vzero, xor, s, m1, m2, t, a[..], k1, k2, t, logn);
    } else {
      m1, m2 := ToLch(vzero, xor, a, logn);
      ghost var t := a[..];
      k1, k2 := ToMono(vzero, xor, a, logn);
      ConversionDetermines(vzero, xor, t, m1, m2, s, t, k1, k2, a[..], logn);
    }
  }
}
