/** What a row of the paxos matrix evaluates to, and when every row evaluates to its value. */
module Okvs {
  import opened Algebra
  import opened FCInverse

  /** The value that row `row` with dense coefficients ks decodes to. */
  function RowValue<F, V>(s: Space<F, V>, row: seq<nat>, ks: seq<F>, p: seq<V>, sparse: nat): V
    requires |p| == sparse + |ks| && InRange(row, sparse)
  {
    s.xor(SparseSum(s, row, p, |row|), Dot(s, ks, p[sparse..], |ks|))
  }

  /** The sparse rows, the dense coefficients of each row, and their sizes. */
  datatype System<F> = System(rows: seq<seq<nat>>, coefs: seq<seq<F>>, sparse: nat, denseSize: nat) {
    ghost predicate Valid() {
      && |coefs| == |rows|
      && (forall r :: 0 <= r < |rows| ==> |coefs[r]| == denseSize && Distinct(rows[r]) && InRange(rows[r], sparse))
    }

    ghost function Value<V>(s: Space<F, V>, p: seq<V>, r: nat): V
      requires Valid() && r < |rows| && |p| == sparse + denseSize
    {
      RowValue(s, rows[r], coefs[r], p, sparse)
    }
  }

  /** The value at r with the values of the added rows xored in. */
  ghost function Gathered<F, V>(s: Space<F, V>, x: seq<V>, r: nat, added: seq<nat>): V
    requires r < |x| && InRange(added, |x|)
  {
    if added == [] then x[r]
    else s.xor(Gathered(s, x, r, added[..|added| - 1]), x[added[|added| - 1]])
  }

  /** The k-th dense coefficient of row r with those of the added rows added in. */
  ghost function Combined<F, V>(s: Space<F, V>, coefs: seq<seq<F>>, r: nat, added: seq<nat>, k: nat): F
    requires r < |coefs| && InRange(added, |coefs|) && forall q :: 0 <= q < |coefs| ==> k < |coefs[q]|
  {
    if added == [] then coefs[r][k]
    else s.plus(Combined(s, coefs, r, added[..|added| - 1], k), coefs[added[|added| - 1]][k])
  }

  ghost function CombinedRow<F, V>(s: Space<F, V>, coefs: seq<seq<F>>, r: nat, added: seq<nat>, d: nat): (ks: seq<F>)
    requires r < |coefs| && InRange(added, |coefs|) && forall q :: 0 <= q < |coefs| ==> |coefs[q]| == d
    ensures |ks| == d
  {
    seq(d, k requires 0 <= k < d => Combined(s, coefs, r, added, k))
  }

  ghost function Values<F, V>(s: Space<F, V>, sys: System<F>, p: seq<V>): (x: seq<V>)
    requires sys.Valid() && |p| == sys.sparse + sys.denseSize
    ensures |x| == |sys.rows|
  {
    seq(|sys.rows|, r requires 0 <= r < |sys.rows| => sys.Value(s, p, r))
  }

  /** Adding rows up: sparse parts by symmetric difference, dense parts coefficient by coefficient. */
  lemma {:induction false} GatheredRows<F(!new), V(!new)>(
    s: Space<F, V>, sys: System<F>, p: seq<V>, r: nat, added: seq<nat>)
    requires Laws(s) && sys.Valid() && |p| == sys.sparse + sys.denseSize
    requires r < |sys.rows| && InRange(added, |sys.rows|)
    ensures Gathered(s, Values(s, sys, p), r, added) ==
      s.xor(MaskSum(s, Residual(sys.rows, r, added), p, |p|),
            Dot(s, CombinedRow(s, sys.coefs, r, added, sys.denseSize), p[sys.sparse..], sys.denseSize))
  {
    hide XorLaws;
    var d, p2 := sys.denseSize, p[sys.sparse..];
    if added == [] {
      RowAsMask(s, sys, p, r);
      DotAgree(s, CombinedRow(s, sys.coefs, r, added, d), sys.coefs[r], p2, p2, d);
    } else {
      var init, q := added[..|added| - 1], added[|added| - 1];
      GatheredRows(s, sys, p, r, init);
      RowAsMask(s, sys, p, q);
      MaskSumSymDiff(s, Residual(sys.rows, r, init), Entries(sys.rows[q]), p, |p|);
      DotPlus(s, CombinedRow(s, sys.coefs, r, init, d), sys.coefs[q], CombinedRow(s, sys.coefs, r, added, d), p2, d);
      XorSwap(s.vzero, s.xor, MaskSum(s, Residual(sys.rows, r, init), p, |p|),
              Dot(s, CombinedRow(s, sys.coefs, r, init, d), p2, d),
              MaskSum(s, Entries(sys.rows[q]), p, |p|), Dot(s, sys.coefs[q], p2, d));
    }
  }

  lemma RowAsMask<F(!new), V(!new)>(s: Space<F, V>, sys: System<F>, p: seq<V>, r: nat)
    requires Laws(s) && sys.Valid() && |p| == sys.sparse + sys.denseSize && r < |sys.rows|
    ensures sys.Value(s, p, r) ==
      s.xor(MaskSum(s, Entries(sys.rows[r]), p, |p|), Dot(s, sys.coefs[r], p[sys.sparse..], sys.denseSize))
  {
    SparseIsMask(s, sys.rows[r], p, |sys.rows[r]|);
    assert sys.rows[r][..|sys.rows[r]|] == sys.rows[r];
  }

  /** If the added rows have their values, gathering tells the values at r apart exactly as r itself does. */
  lemma {:induction false} GatheredAgree<F(!new), V(!new)>(s: Space<F, V>, x: seq<V>, y: seq<V>, r: nat,
    added: seq<nat>)
    requires Laws(s) && |x| == |y| && r < |x| && InRange(added, |x|)
    requires forall q :: q in added ==> x[q] == y[q]
    ensures s.xor(Gathered(s, x, r, added), Gathered(s, y, r, added)) == s.xor(x[r], y[r])
  {
    if added != [] {
      var init, q := added[..|added| - 1], added[|added| - 1];
      GatheredAgree(s, x, y, r, init);
      assert q in added;
      XorSwap(s.vzero, s.xor, Gathered(s, x, r, init), x[q], Gathered(s, y, r, init), y[q]);
      XorZero(s.vzero, s.xor, x[q]);
      XorZero(s.vzero, s.xor, s.xor(Gathered(s, x, r, init), Gathered(s, y, r, init)));
    }
  }

  /** A gap row whose combined dense part gives the gathered values decodes to its value,
      up to the sum over the columns on which its sparse parts do not cancel. */
  lemma GapValue<F(!new), V(!new)>(
    s: Space<F, V>, sys: System<F>, p: seq<V>, x: seq<V>, r: nat, added: seq<nat>)
    requires Laws(s) && sys.Valid() && |p| == sys.sparse + sys.denseSize && |x| == |sys.rows|
    requires r < |sys.rows| && InRange(added, |sys.rows|)
    requires forall q :: q in added ==> sys.Value(s, p, q) == x[q]
    requires Dot(s, CombinedRow(s, sys.coefs, r, added, sys.denseSize), p[sys.sparse..], sys.denseSize) ==
      Gathered(s, x, r, added)
    ensures sys.Value(s, p, r) == s.xor(x[r], MaskSum(s, Residual(sys.rows, r, added), p, |p|))
  {
    hide XorLaws, MaskSum, Residual, CombinedRow, Gathered, RowValue;
    var y := Values(s, sys, p);
    GatheredRows(s, sys, p, r, added);
    GatheredAgree(s, y, x, r, added);
    var m, g := MaskSum(s, Residual(sys.rows, r, added), p, |p|), Gathered(s, x, r, added);
    XorCancel(s.vzero, s.xor, m, g);
    XorMove(s.vzero, s.xor, y[r], x[r], m);
    XorComm(s.vzero, s.xor, m, x[r]);
    assert y[r] == sys.Value(s, p, r);
  }

  // Back substitution.

  lemma {:induction false} MaskUpdate<F(!new), V(!new)>(s: Space<F, V>, a: set<nat>, p: seq<V>, c: nat, y: V, n: nat)
    requires Laws(s) && n <= |p| && c < |p| && p[c] == s.vzero
    ensures MaskSum(s, a, p[c := y], n) == s.xor(MaskSum(s, a, p, n), if c in a && c < n then y else s.vzero)
  {
    hide XorLaws;
    if n == 0 {
      XorZero(s.vzero, s.xor, s.vzero);
    } else {
      MaskUpdate(s, a, p, c, y, n - 1);
      var before := MaskSum(s, a, p, n - 1);
      XorZero(s.vzero, s.xor, before);
      if c == n - 1 {
        XorZero(s.vzero, s.xor, s.xor(before, s.vzero));
      } else {
        var v := if n - 1 in a then p[n - 1] else s.vzero;
        var u := if c in a && c < n then y else s.vzero;
        XorMove(s.vzero, s.xor, before, u, v);
      }
    }
  }

  /** Writing the missing amount to a zero column of a row makes the row decode to its value. */
  lemma SolveRow<F(!new), V(!new)>(s: Space<F, V>, sys: System<F>, p: seq<V>, r: nat, c: nat, x: V, y: V)
    requires Laws(s) && sys.Valid() && |p| == sys.sparse + sys.denseSize && r < |sys.rows|
    requires c in sys.rows[r] && c < sys.sparse && p[c] == s.vzero
    requires y == s.xor(x, sys.Value(s, p, r))
    ensures sys.Value(s, p[c := y], r) == x
  {
    hide XorLaws;
    var p' := p[c := y];
    RowAsMask(s, sys, p, r);
    RowAsMask(s, sys, p', r);
    MaskUpdate(s, Entries(sys.rows[r]), p, c, y, |p|);
    assert p'[sys.sparse..] == p[sys.sparse..];
    var m, d := MaskSum(s, Entries(sys.rows[r]), p, |p|), Dot(s, sys.coefs[r], p[sys.sparse..], sys.denseSize);
    XorMove(s.vzero, s.xor, m, y, d);
    XorComm(s.vzero, s.xor, s.xor(m, d), y);
    XorCancel(s.vzero, s.xor, x, s.xor(m, d));
  }

  /** Rows that do not use a sparse column do not notice a write to it. */
  lemma KeepRow<F(!new), V(!new)>(s: Space<F, V>, sys: System<F>, p: seq<V>, r: nat, c: nat, y: V)
    requires Laws(s) && sys.Valid() && |p| == sys.sparse + sys.denseSize && r < |sys.rows|
    requires c !in sys.rows[r] && c < sys.sparse
    ensures sys.Value(s, p[c := y], r) == sys.Value(s, p, r)
  {
    var p' := p[c := y];
    RowAsMask(s, sys, p, r);
    RowAsMask(s, sys, p', r);
    MaskSumAgree(s, Entries(sys.rows[r]), p, p', |p|);
    assert p'[sys.sparse..] == p[sys.sparse..];
  }
}
