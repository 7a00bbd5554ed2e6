/** Decoding is linear, with and without bins: what the protocols ask of their key-value store. */
module LinearDecoding {
  import opened Algebra
  import opened Words
  import opened Backfill
  import opened PaxosDecode
  import opened PaxosBinary
  import opened PaxosBinaryDecode
  import opened BaxosBins
  import opened RsOprf
  import H = PaxosHash

  lemma {:induction false} SparseSumXor<F(!new), V(!new)>(s: Space<F, V>, row: seq<nat>, p: seq<V>, q: seq<V>, n: nat)
    requires Laws(s) && |p| == |q| && n <= |row| && InRange(row, |p|)
    ensures SparseSum(s, row, XorVec(s.xor, p, q), n) == s.xor(SparseSum(s, row, p, n), SparseSum(s, row, q, n))
  {
    hide XorLaws;
    if n == 0 {
      XorZero(s.vzero, s.xor, s.vzero);
    } else {
      SparseSumXor(s, row, p, q, n - 1);
      XorSwap(s.vzero, s.xor, SparseSum(s, row, p, n - 1), SparseSum(s, row, q, n - 1), p[row[n - 1]], q[row[n - 1]]);
    }
  }

  lemma {:induction false} SparseSumScale<F(!new), V(!new)>(s: Space<F, V>, c: F, row: seq<nat>, p: seq<V>, n: nat)
    requires Laws(s) && n <= |row| && InRange(row, |p|)
    ensures SparseSum(s, row, ScaleVec(s, c, p), n) == s.scale(c, SparseSum(s, row, p, n))
  {
    if n == 0 {
      ScaleZero(s, c, s.vzero);
    } else {
      SparseSumScale(s, c, row, p, n - 1);
      ScaleXor(s, c, SparseSum(s, row, p, n - 1), p[row[n - 1]]);
    }
  }

  lemma {:induction false} DotScale<F(!new), V(!new)>(s: Space<F, V>, c: F, ks: seq<F>, p: seq<V>, n: nat)
    requires Laws(s) && n <= |ks| && n <= |p|
    ensures Dot(s, ks, ScaleVec(s, c, p), n) == s.scale(c, Dot(s, ks, p, n))
  {
    if n == 0 {
      ScaleZero(s, c, s.vzero);
    } else {
      DotScale(s, c, ks, p, n - 1);
      ScalePlus(s, ks[n - 1], c, p[n - 1]);
      ScalePlus(s, c, ks[n - 1], p[n - 1]);
      TimesLaws(s, ks[n - 1], c, c);
      ScaleXor(s, c, Dot(s, ks, p, n - 1), s.scale(ks[n - 1], p[n - 1]));
    }
  }

  /** A decoded value is linear in the output vector. */
  lemma DecodedLinear<F(!new), V(!new)>(
    s: Space<F, V>, row: seq<nat>, e: F, p: seq<V>, q: seq<V>, c: F, sparse: nat, d: nat)
    requires Laws(s) && InRange(row, sparse) && |p| == |q| == sparse + d
    ensures Decoded(s, row, e, XorVec(s.xor, p, q), sparse, d) ==
      s.xor(Decoded(s, row, e, p, sparse, d), Decoded(s, row, e, q, sparse, d))
    ensures Decoded(s, row, e, ScaleVec(s, c, p), sparse, d) == s.scale(c, Decoded(s, row, e, p, sparse, d))
  {
    hide XorLaws;
    var ks, n := Powers(s, e, d), |row|;
    var sum, scaled := XorVec(s.xor, p, q), ScaleVec(s, c, p);
    SparseSumXor(s, row, p, q, n);
    DotXor(s, ks, p[sparse..], q[sparse..], sum[sparse..], d);
    XorSwap(s.vzero, s.xor, SparseSum(s, row, p, n), SparseSum(s, row, q, n), Dot(s, ks, p[sparse..], d),
            Dot(s, ks, q[sparse..], d));
    SparseSumScale(s, c, row, p, n);
    assert scaled[sparse..] == ScaleVec(s, c, p[sparse..]);
    DotScale(s, c, ks, p[sparse..], d);
    ScaleXor(s, c, SparseSum(s, row, p, n), Dot(s, ks, p[sparse..], d));
  }

  /** Selecting by bits commutes with scaling, whatever the scalars are. */
  lemma {:induction false} SelectScale<F(!new), V(!new)>(s: Space<F, V>, c: F, bits: Hash, p: seq<V>, n: nat)
    requires Laws(s) && n <= |bits| && n <= |p|
    ensures var b := BitSpace(s.vzero, s.xor); Dot(b, bits, ScaleVec(s, c, p), n) == s.scale(c, Dot(b, bits, p, n))
  {
    ScaleZero(s, c, s.vzero);
    if n > 0 {
      SelectScale(s, c, bits, p, n - 1);
      ScaleXor(s, c, Dot(BitSpace(s.vzero, s.xor), bits, p, n - 1), if bits[n - 1] then p[n - 1] else s.vzero);
    }
  }

  lemma {:induction false} SameSparseSum<F, G, V>(s: Space<F, V>, t: Space<G, V>, row: seq<nat>, p: seq<V>, n: nat)
    requires s.vzero == t.vzero && s.xor == t.xor && n <= |row| && InRange(row, |p|)
    ensures SparseSum(s, row, p, n) == SparseSum(t, row, p, n)
  {
    if n > 0 {
      SameSparseSum(s, t, row, p, n - 1);
    }
  }

  /** The same of a value decoded with bits. */
  lemma BitsLinear<F(!new), V(!new)>(
    s: Space<F, V>, row: seq<nat>, hash: Hash, p: seq<V>, q: seq<V>, c: F, sparse: nat, d: nat)
    requires Laws(s) && InRange(row, sparse) && |p| == |q| == sparse + d && d <= |hash|
    ensures var b := BitSpace(s.vzero, s.xor);
      && DecodedBits(b, row, hash, XorVec(s.xor, p, q), sparse, d) ==
        s.xor(DecodedBits(b, row, hash, p, sparse, d), DecodedBits(b, row, hash, q, sparse, d))
      && DecodedBits(b, row, hash, ScaleVec(s, c, p), sparse, d) == s.scale(c, DecodedBits(b, row, hash, p, sparse, d))
  {
    hide Laws;
    LawsOf(s);
    var b, ks, n := BitSpace(s.vzero, s.xor), FirstBits(hash, d), |row|;
    var sum, scaled := XorVec(s.xor, p, q), ScaleVec(s, c, p);
    BitSpaceIsSpace(s.vzero, s.xor);
    SparseSumXor(b, row, p, q, n);
    DotXor(b, ks, p[sparse..], q[sparse..], sum[sparse..], d);
    XorSwap(s.vzero, s.xor, SparseSum(b, row, p, n), SparseSum(b, row, q, n), Dot(b, ks, p[sparse..], d),
            Dot(b, ks, q[sparse..], d));
    SparseSumScale(s, c, row, p, n);
    SameSparseSum(s, b, row, p, n);
    SameSparseSum(s, b, row, scaled, n);
    assert scaled[sparse..] == ScaleVec(s, c, p[sparse..]);
    SelectScale(s, c, ks, p[sparse..], d);
    ScaleXor(s, c, SparseSum(b, row, p, n), Dot(b, ks, p[sparse..], d));
  }

  lemma LawsOf<F(!new), V(!new)>(s: Space<F, V>)
    requires Laws(s)
    ensures XorLaws(s.vzero, s.xor)
  {}

  ghost function KeyOrZero<V>(s: Space<Block, V>, l: Layout, pp: seq<V>, h: Block): V {
    if l.Valid() && |pp| == l.Size() then KeyValue(s, l, h, pp) else s.vzero
  }

  /** Decoding through the bins, as a function of the output vector and the key. */
  ghost function KeyDecoder<V>(s: Space<Block, V>, l: Layout): (seq<V>, Block) -> V {
    (pp: seq<V>, h: Block) => KeyOrZero(s, l, pp, h)
  }

  lemma PartsLinear<V>(s: Space<Block, V>, p: seq<V>, q: seq<V>, c: Block, b: nat, size: nat)
    requires |p| == |q| && (b + 1) * size <= |p|
    ensures BinPart(XorVec(s.xor, p, q), b, size) == XorVec(s.xor, BinPart(p, b, size), BinPart(q, b, size))
    ensures BinPart(ScaleVec(s, c, p), b, size) == ScaleVec(s, c, BinPart(p, b, size))
  {
    Next(b, size);
  }

  lemma KeyLinear<V(!new)>(s: Space<Block, V>, l: Layout, h: Block, p: seq<V>, q: seq<V>, c: Block)
    requires Laws(s) && l.Valid() && |p| == |q| == l.Size()
    ensures KeyValue(s, l, h, XorVec(s.xor, p, q)) == s.xor(KeyValue(s, l, h, p), KeyValue(s, l, h, q))
    ensures KeyValue(s, l, h, ScaleVec(s, c, p)) == s.scale(c, KeyValue(s, l, h, p))
  {
    hide Laws, Pow2, H.RowOf, BinOf, BinPart, Decoded, DecodedBits, XorVec, ScaleVec;
    var b, size := BinOf(h, l.numBins), l.PartSize();
    PartInRange(l.numBins, b, size);
    PartsLinear(s, p, q, c, b, size);
    var sparse, d := l.param.sparseSize, l.param.denseSize;
    H.RowOfGood(h, l.param.weight, sparse);
    var row := H.RowOf(h, l.param.weight, sparse);
    match l.param.dt {
      case GF128 => DecodedLinear(s, row, h, BinPart(p, b, size), BinPart(q, b, size), c, sparse, d);
      case Binary => BitsLinear(s, row, h, BinPart(p, b, size), BinPart(q, b, size), c, sparse, d);
    }
  }

  /** The binned key-value store meets the linearity that the protocols require. */
  lemma KeyDecoderLinear<V(!new)>(s: Space<Block, V>, l: Layout)
    requires Laws(s) && l.Valid()
    ensures FieldLinear(s, KeyDecoder(s, l), l.Size())
  {
    hide Laws, Layout.Valid, KeyValue;
    var size := l.Size();
    forall a: seq<V>, b: seq<V>, k: Block | |a| == |b| == size
      ensures KeyDecoder(s, l)(XorVec(s.xor, a, b), k) == s.xor(KeyDecoder(s, l)(a, k), KeyDecoder(s, l)(b, k))
    {
      KeyLinear(s, l, k, a, b, k);
    }
    forall c: Block, a: seq<V>, k: Block | |a| == size
      ensures KeyDecoder(s, l)(ScaleVec(s, c, a), k) == s.scale(c, KeyDecoder(s, l)(a, k))
    {
      KeyLinear(s, l, k, a, a, c);
    }
  }
}
