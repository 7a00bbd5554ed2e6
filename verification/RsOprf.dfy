/** The oblivious pseudo-random function: masking the encoded hashes, the sender's update, and both evaluations. */
module RsOprf {
  import opened Wrappers
  import opened Algebra

  const UNROLL := 8

  // The receiver's chunked masking of p by c, in place, and the messages it sends.

  /** What has been sent, and whether the whole of c was consumed (or the vector was given away before). */
  datatype Sent<V> = Sent(messages: seq<seq<V>>, complete: bool)

  /** c xored into the n entries of p from `at` on. */
  ghost function MaskRange<V>(xor: (V, V) -> V, p: seq<V>, c: seq<V>, at: nat, n: nat): (r: seq<V>)
    requires |p| == |c| && at + n <= |p|
    ensures |r| == |p|
  {
    seq(|p|, i requires 0 <= i < |p| => if at <= i < at + n then xor(p[i], c[i]) else p[i])
  }

  /** How many entries one round masks: the unrolled part of the chunk, and on to the size of the view that is left. */
  function Masked(size: nat, left: nat): nat {
    var main := size / UNROLL * UNROLL;
    if left > main then left else main
  }

  /** The rounds of the sending loop: the view of p starts at `at` and has n entries. */
  ghost function SendRounds<V>(xor: (V, V) -> V, p: seq<V>, c: seq<V>, at: nat, n: nat, chunk: nat): (s: Sent<V>)
    requires |p| == |c| && at + n == |p| && chunk >= 1
    decreases n
  {
    if n == 0 then Sent([], true)
    else
      var size := if n < chunk then n else chunk;
      var left := if n != size then n - size else n;
      var q := MaskRange(xor, p, c, at, Masked(size, left));
      if n == size then Sent([q[at..]], true)
      else if left != size then
        var rest := SendRounds(xor, q, c, at + size, n - size, chunk);
        Sent([q[at..at + size]] + rest.messages, rest.complete)
      else Sent([q[at + size..]], false)
  }

  function Concat<V>(l: seq<seq<V>>): seq<V> {
    if l == [] then [] else l[0] + Concat(l[1..])
  }

  /** The whole-vector transfer. */
  ghost predicate SendsMasked<V>(xor: (V, V) -> V, p: seq<V>, c: seq<V>, s: Sent<V>)
    requires |p| == |c|
  {
    s.complete && Concat(s.messages) == XorVec(xor, p, c)
  }

  /** One chunk: everything is masked once and sent. */
  lemma LastRound<V>(xor: (V, V) -> V, p: seq<V>, c: seq<V>, at: nat, n: nat, chunk: nat)
    requires |p| == |c| && at + n == |p| && n <= chunk
    ensures chunk >= 1 ==> Concat(SendRounds(xor, p, c, at, n, chunk).messages) == XorVec(xor, p, c)[at..]
    ensures chunk >= 1 ==> SendRounds(xor, p, c, at, n, chunk).complete
  {
    if chunk >= 1 && n > 0 {
      var q := MaskRange(xor, p, c, at, Masked(n, n));
      assert Concat([q[at..]]) == q[at..] + Concat([q[at..]][1..]);
      assert q[at..] == XorVec(xor, p, c)[at..];
    }
  }

  /** Under two chunks the loop sends exactly the masked vector. */
  lemma ShortVectors<V>(xor: (V, V) -> V, p: seq<V>, c: seq<V>, chunk: nat)
    requires |p| == |c| < 2 * chunk && chunk >= 1 && chunk % UNROLL == 0
    ensures SendsMasked(xor, p, c, SendRounds(xor, p, c, 0, |p|, chunk))
  {
    var n := |p|;
    if n <= chunk {
      LastRound(xor, p, c, 0, n, chunk);
    } else {
      var q := MaskRange(xor, p, c, 0, Masked(chunk, n - chunk));
      LastRound(xor, q, c, chunk, n - chunk, chunk);
      var rest := SendRounds(xor, q, c, chunk, n - chunk, chunk);
      var all := [q[0..chunk]] + rest.messages;
      assert all[1..] == rest.messages;
      assert XorVec(xor, q, c)[chunk..] == XorVec(xor, p, c)[chunk..];
      assert q[0..chunk] == XorVec(xor, p, c)[..chunk];
      assert XorVec(xor, p, c)[..chunk] + XorVec(xor, p, c)[chunk..] == XorVec(xor, p, c);
    }
  }

  lemma ConcatFirst<V>(l: seq<seq<V>>)
    requires |l| >= 2 && |l[1]| >= 1
    ensures |Concat(l)| > |l[0]| && Concat(l)[|l[0]|] == l[1][0]
  {
    assert l[1..][0] == l[1];
  }

  /** From two chunks on it does not: the first entry of the second chunk goes out unmasked, or the vector is given
      away before it is all sent. */
  lemma LongVectors<V(!new)>(vzero: V, xor: (V, V) -> V, p: seq<V>, c: seq<V>, chunk: nat)
    requires XorLaws(vzero, xor) && |p| == |c| >= 2 * chunk && chunk >= 1 && chunk % UNROLL == 0
    requires c[chunk] != vzero
    ensures !SendsMasked(xor, p, c, SendRounds(xor, p, c, 0, |p|, chunk))
  {
    hide XorLaws, MaskRange, SendRounds, Masked, Concat, XorVec;
    var n := |p|;
    NextRound(xor, p, c, 0, n, chunk, chunk, n - chunk);
    if n > 2 * chunk {
      var size := Masked(chunk, n - chunk);
      var q := MaskRange(xor, p, c, 0, size);
      var rest := SendRounds(xor, q, c, chunk, n - chunk, chunk);
      var all := [q[0..chunk]] + rest.messages;
      if rest.complete {
        MaskedBeyond(chunk, n - chunk);
        SecondMessage(xor, q, c, chunk, n - chunk, chunk);
        MaskedAt(xor, p, c, 0, size, chunk);
        XorCancel(vzero, xor, p[chunk], c[chunk]);
        ConcatFirst(all);
        NonZeroChanges(vzero, xor, p[chunk], c[chunk]);
        XorVecAt(xor, p, c, chunk);
      }
    }
  }

  lemma MaskedBeyond(size: nat, left: nat)
    requires left > size
    ensures Masked(size, left) > size
  {}

  lemma XorVecAt<V>(xor: (V, V) -> V, p: seq<V>, c: seq<V>, i: nat)
    requires |p| == |c| && i < |p|
    ensures XorVec(xor, p, c)[i] == xor(p[i], c[i])
  {}

  lemma MaskedAt<V>(xor: (V, V) -> V, p: seq<V>, c: seq<V>, at: nat, n: nat, i: nat)
    requires |p| == |c| && at + n <= |p| && at <= i < at + n
    ensures MaskRange(xor, p, c, at, n)[i] == xor(p[i], c[i])
  {}

  lemma NonZeroChanges<V(!new)>(vzero: V, xor: (V, V) -> V, a: V, b: V)
    requires XorLaws(vzero, xor) && b != vzero
    ensures xor(a, b) != a
  {
    hide XorLaws;
    XorComm(vzero, xor, a, b);
    XorMove(vzero, xor, b, a, a);
    XorZero(vzero, xor, a);
  }

  lemma SecondMessage<V>(xor: (V, V) -> V, q: seq<V>, c: seq<V>, at: nat, n: nat, chunk: nat)
    requires |q| == |c| && at + n == |q| && n > 0 && chunk >= UNROLL && chunk % UNROLL == 0
    requires SendRounds(xor, q, c, at, n, chunk).complete
    ensures var m := SendRounds(xor, q, c, at, n, chunk).messages;
      |m| >= 1 && |m[0]| >= 1 && m[0][0] == xor(q[at], c[at])
  {
    var size := if n < chunk then n else chunk;
    var left := if n != size then n - size else n;
    assert Masked(size, left) >= 1;
  }

  /** The chunked transfer equals the whole-vector transfer exactly for the vectors shorter than two chunks. */
  lemma ChunkedExactly<V(!new)>(vzero: V, xor: (V, V) -> V, n: nat, chunk: nat, one: V)
    requires XorLaws(vzero, xor) && chunk >= 1 && chunk % UNROLL == 0 && one != vzero
    ensures n < 2 * chunk <==> forall p: seq<V>, c: seq<V> :: |p| == |c| == n ==>
      SendsMasked(xor, p, c, SendRounds(xor, p, c, 0, n, chunk))
  {
    hide XorLaws;
    if n < 2 * chunk {
      forall p: seq<V>, c: seq<V> | |p| == |c| == n
        ensures SendsMasked(xor, p, c, SendRounds(xor, p, c, 0, n, chunk))
      {
        ShortVectors(xor, p, c, chunk);
      }
    } else {
      var p, c := seq(n, _ => vzero), seq(n, _ => one);
      LongVectors(vzero, xor, p, c, chunk);
      assert |p| == |c| == n;
    }
  }

  /** Masks the chunk eight entries at a time, and then on to the size of the view. */
  method MaskChunk<V>(xor: (V, V) -> V, p: array<V>, c: seq<V>, at: nat, size: nat, left: nat)
    requires p.Length == |c| && at + size <= p.Length && at + left <= p.Length
    modifies p
    ensures p[..] == MaskRange(xor, old(p[..]), c, at, Masked(size, left))
  {
    var main := size / UNROLL * UNROLL;
    var i := 0;
    while i < main
      invariant 0 <= i <= main && i % UNROLL == 0
      invariant p[..] == MaskRange(xor, old(p[..]), c, at, i)
    {
      for k := 0 to UNROLL
        invariant p[..] == MaskRange(xor, old(p[..]), c, at, i + k)
      {
        p[at + i + k] := xor(p[at + i + k], c[at + i + k]);
      }
      i := i + UNROLL;
    }
    while i < left
      invariant main <= i && (i <= left || i == main)
      invariant p[..] == MaskRange(xor, old(p[..]), c, at, i)
    {
      p[at + i] := xor(p[at + i], c[at + i]);
      i := i + 1;
    }
  }

  /** The sending loop of the receiver. */
  method SendMasked<V>(xor: (V, V) -> V, p: array<V>, c: seq<V>, chunk: nat) returns (messages: seq<seq<V>>,
    complete: bool)
    requires p.Length == |c| && chunk >= 1
    modifies p
    ensures Sent(messages, complete) == SendRounds(xor, old(p[..]), c, 0, |c|, chunk)
  {
    hide SendRounds, MaskRange, Masked;
    var at, n := 0, |c|;
    messages := [];
    ghost var goal := SendRounds(xor, p[..], c, 0, |c|, chunk);
    while n != 0
      invariant 0 <= n && at + n == |c|
      invariant goal == Prepend(messages, SendRounds(xor, p[..], c, at, n, chunk))
      decreases n
    {
      var size := if n < chunk then n else chunk;
      var left := if n != size then n - size else n;
      NextRound(xor, p[..], c, at, n, chunk, size, left);
      MaskChunk(xor, p, c, at, size, left);
      if n == size {
        messages := messages + [p[at..]];
        return messages, true;
      } else if left != size {
        messages := messages + [p[at..at + size]];
        at, n := at + size, n - size;
      } else {
        messages := messages + [p[at + size..]];
        return messages, false;
      }
    }
    NextRound(xor, p[..], c, at, 0, chunk, 0, 0);
    return messages, true;
  }

  /** One round of the sending loop. */
  lemma NextRound<V>(
    xor: (V, V) -> V, p: seq<V>, c: seq<V>, at: nat, n: nat, chunk: nat, size: nat, left: nat)
    requires |p| == |c| && at + n == |p| && chunk >= 1
    requires size == (if n < chunk then n else chunk) && left == if n != size then n - size else n
    ensures Masked(size, left) <= n
    ensures n == 0 ==> SendRounds(xor, p, c, at, n, chunk) == Sent([], true)
    ensures n > 0 ==>
      var q := MaskRange(xor, p, c, at, Masked(size, left));
      SendRounds(xor, p, c, at, n, chunk) ==
        if n == size then Sent([q[at..]], true)
        else if left != size then
          Prepend([q[at..at + size]], SendRounds(xor, q, c, at + size, n - size, chunk))
        else Sent([q[at + size..]], false)
  {}

  ghost function Prepend<V>(l: seq<seq<V>>, s: Sent<V>): Sent<V> {
    Sent(l + s.messages, s.complete)
  }

  // The sender.

  lemma {:induction false} ConcatAppend<V>(l: seq<seq<V>>, m: seq<V>)
    ensures Concat(l + [m]) == Concat(l) + m
  {
    if l == [] {
      assert (l + [m])[1..] == [];
    } else {
      ConcatAppend(l[1..], m);
      assert (l + [m])[1..] == l[1..] + [m];
    }
  }

  /** b with d times the received values added in its first n entries. */
  ghost function Updated<F, V>(s: Space<F, V>, b: seq<V>, d: F, received: seq<V>): (r: seq<V>)
    requires |received| <= |b|
    ensures |r| == |b|
  {
    seq(|b|, i requires 0 <= i < |b| => if i < |received| then s.xor(b[i], s.scale(d, received[i])) else b[i])
  }

  class RsOprfSender<F, V> {
    var b: array<V>
    var d: F
    var w: V
    const malicious: bool

    constructor (b: array<V>, d: F, w: V, malicious: bool)
      ensures this.b == b && this.d == d && this.w == w && this.malicious == malicious
    {
      this.b, this.d, this.w, this.malicious := b, d, w, malicious;
    }

    /** Adds d times one received chunk to the part of b from `at` on, eight entries at a time. */
    method AddChunk(s: Space<F, V>, p: seq<V>, at: nat)
      requires at + |p| <= b.Length
      modifies b
      ensures forall q :: 0 <= q < b.Length ==>
        b[q] == if at <= q < at + |p| then s.xor(old(b[q]), s.scale(d, p[q - at])) else old(b[q])
    {
      var main := |p| / UNROLL * UNROLL;
      var i := 0;
      while i < main
        invariant 0 <= i <= main && i % UNROLL == 0
        invariant forall q :: 0 <= q < b.Length ==>
          b[q] == if at <= q < at + i then s.xor(old(b[q]), s.scale(d, p[q - at])) else old(b[q])
      {
        for k := 0 to UNROLL
          invariant forall q :: 0 <= q < b.Length ==>
            b[q] == if at <= q < at + i + k then s.xor(old(b[q]), s.scale(d, p[q - at])) else old(b[q])
        {
          b[at + i + k] := s.xor(b[at + i + k], s.scale(d, p[i + k]));
        }
        i := i + UNROLL;
      }
      while i < |p|
        invariant main <= i <= |p|
        invariant forall q :: 0 <= q < b.Length ==>
          b[q] == if at <= q < at + i then s.xor(old(b[q]), s.scale(d, p[q - at])) else old(b[q])
      {
        b[at + i] := s.xor(b[at + i], s.scale(d, p[i]));
        i := i + 1;
      }
    }

    /** Receives the messages, chunk by chunk, and agrees on the joint mask with the receiver's wr. */
    method Send(s: Space<F, V>, messages: seq<seq<V>>, ws: V, wr: V)
      requires |Concat(messages)| <= b.Length
      modifies this`w, b
      ensures b[..] == Updated(s, old(b[..]), d, Concat(messages))
      ensures w == if malicious then s.xor(wr, ws) else old(w)
    {
      if malicious {
        w := wr;
        w := s.xor(w, ws);
      }
      var at := 0;
      ghost var b0 := b[..];
      assert messages[..0] == [];
      for i := 0 to |messages|
        invariant at == |Concat(messages[..i])| && at <= b.Length
        invariant w == if malicious then s.xor(wr, ws) else old(w)
        invariant b[..] == Updated(s, b0, d, Concat(messages[..i]))
      {
        assert messages[..i + 1] == messages[..i] + [messages[i]];
        ConcatAppend(messages[..i], messages[i]);
        PrefixShorter(messages, i + 1);
        AddChunk(s, messages[i], at);
        at := at + |messages[i]|;
      }
      assert messages[..|messages|] == messages;
    }

    /** Evaluates the function on decoded values: adds d times the hashes, the joint mask if there is one, and
        hashes. */
    method Eval<K>(
      s: Space<F, V>, decode: (seq<V>, K) -> V, h: K -> V, hash: V -> V, keyed: (V, K) -> V, vals: seq<K>)
      returns (output: seq<V>)
      ensures |output| == |vals|
      ensures forall i :: 0 <= i < |vals| ==>
        output[i] == EvalValue(s, decode, h, hash, keyed, b[..], d, w, malicious, vals[i])
    {
      var table := b[..];
      output := [];
      for i := 0 to |vals|
        invariant |output| == i && forall j :: 0 <= j < i ==>
          output[j] == EvalValue(s, decode, h, hash, keyed, table, d, w, malicious, vals[j])
      {
        var o := decode(table, vals[i]);
        o := s.xor(o, s.scale(d, h(vals[i])));
        if malicious {
          o := s.xor(o, w);
          o := keyed(o, vals[i]);
        } else {
          o := hash(o);
        }
        output := output + [o];
      }
    }
  }

  lemma {:induction false} PrefixShorter<V>(l: seq<seq<V>>, i: nat)
    requires i <= |l|
    ensures |Concat(l[..i])| <= |Concat(l)|
  {
    if i == 0 {
      assert l[..0] == [];
    } else {
      PrefixShorter(l[1..], i - 1);
      assert l[..i][1..] == l[1..][..i - 1];
    }
  }

  ghost function EvalValue<F, V, K>(
    s: Space<F, V>, decode: (seq<V>, K) -> V, h: K -> V, hash: V -> V, keyed: (V, K) -> V, table: seq<V>, d: F, w: V,
    malicious: bool, v: K): V
  {
    var o := s.xor(decode(table, v), s.scale(d, h(v)));
    if malicious then keyed(s.xor(o, w), v) else hash(o)
  }

  // Agreement.

  /** Decoding is linear over the field. */
  ghost predicate FieldLinear<F(!new), V(!new), K(!new)>(s: Space<F, V>, decode: (seq<V>, K) -> V, size: nat) {
    && (forall a: seq<V>, b: seq<V>, k: K :: |a| == |b| == size ==>
      decode(XorVec(s.xor, a, b), k) == s.xor(decode(a, k), decode(b, k)))
    && (forall d: F, a: seq<V>, k: K :: |a| == size ==> decode(ScaleVec(s, d, a), k) == s.scale(d, decode(a, k)))
  }

  /** The correlation: a xor b = d c. */
  ghost predicate Correlated<F, V>(s: Space<F, V>, a: seq<V>, b: seq<V>, c: seq<V>, d: F) {
    |a| == |b| == |c| && forall i :: 0 <= i < |a| ==> s.xor(a[i], b[i]) == s.scale(d, c[i])
  }

  /** The update turns b into a xor d p. */
  lemma UpdateGives<F(!new), V(!new)>(s: Space<F, V>, a: seq<V>, b: seq<V>, c: seq<V>, p: seq<V>, d: F)
    requires Laws(s) && Correlated(s, a, b, c, d) && |p| == |a|
    ensures Updated(s, b, d, XorVec(s.xor, p, c)) == XorVec(s.xor, a, ScaleVec(s, d, p))
  {
    hide XorLaws;
    forall i | 0 <= i < |a|
      ensures s.xor(b[i], s.scale(d, s.xor(p[i], c[i]))) == s.xor(a[i], s.scale(d, p[i]))
    {
      ScaleXor(s, d, p[i], c[i]);
      var x, y := s.scale(d, p[i]), s.scale(d, c[i]);
      XorComm(s.vzero, s.xor, x, y);
      XorAssoc(s.vzero, s.xor, b[i], y, x);
      XorMove(s.vzero, s.xor, a[i], b[i], y);
      XorComm(s.vzero, s.xor, y, b[i]);
    }
  }

  /** For any value: what the sender decodes is what the receiver decodes, and d times what the vector p gives amiss. */
  lemma EvalOfAny<F(!new), V(!new), K(!new)>(
    s: Space<F, V>, decode: (seq<V>, K) -> V, h: K -> V, a: seq<V>, p: seq<V>, d: F, v: K)
    requires Laws(s) && |p| == |a| && FieldLinear(s, decode, |a|)
    ensures s.xor(decode(XorVec(s.xor, a, ScaleVec(s, d, p)), v), s.scale(d, h(v))) ==
      s.xor(decode(a, v), s.scale(d, s.xor(decode(p, v), h(v))))
  {
    hide XorLaws;
    var scaled := ScaleVec(s, d, p);
    assert decode(XorVec(s.xor, a, scaled), v) == s.xor(decode(a, v), decode(scaled, v));
    ScaleXor(s, d, decode(p, v), h(v));
    XorAssoc(s.vzero, s.xor, decode(a, v), s.scale(d, decode(p, v)), s.scale(d, h(v)));
  }

  /** What the receiver outputs for a value. */
  ghost function ReceiverValue<V, K>(
    xor: (V, V) -> V, decode: (seq<V>, K) -> V, hash: V -> V, keyed: (V, K) -> V, a: seq<V>, w: V, malicious: bool,
      v: K)
    : V
  {
    if malicious then keyed(xor(decode(a, v), w), v) else hash(decode(a, v))
  }

  /** For every value that the receiver encoded, the sender evaluates to the receiver's output, in both modes. */
  lemma OprfAgrees<F(!new), V(!new), K(!new)>(
    s: Space<F, V>, decode: (seq<V>, K) -> V, h: K -> V, hash: V -> V, keyed: (V, K) -> V,
    a: seq<V>, b: seq<V>, c: seq<V>, p: seq<V>, d: F, ws: V, wr: V, malicious: bool, v: K)
    requires Laws(s) && Correlated(s, a, b, c, d) && |p| == |a| && FieldLinear(s, decode, |a|)
    requires decode(p, v) == h(v)
    ensures EvalValue(s, decode, h, hash, keyed, Updated(s, b, d, XorVec(s.xor, p, c)), d, s.xor(wr, ws), malicious, v)
      == ReceiverValue(s.xor, decode, hash, keyed, a, s.xor(ws, wr), malicious, v)
  {
    hide XorLaws;
    UpdateGives(s, a, b, c, p, d);
    var scaled := ScaleVec(s, d, p);
    assert decode(XorVec(s.xor, a, scaled), v) == s.xor(decode(a, v), decode(scaled, v));
    XorCancel(s.vzero, s.xor, decode(a, v), s.scale(d, h(v)));
    XorComm(s.vzero, s.xor, ws, wr);
  }

  /** The receiver's last part: check the sender's commitment, decode a, add the joint mask if there is one, and
      hash. */
  method Finish<V, K, C(==)>(
    xor: (V, V) -> V, decode: (seq<V>, K) -> V, hash: V -> V, keyed: (V, K) -> V, commit: V -> C, a: seq<V>, hws: C,
    ws: V, wr: V, malicious: bool, values: seq<K>) returns (r: Option<seq<V>>)
    ensures r.None? <==> malicious && commit(ws) != hws
    ensures r.Some? ==> |r.value| == |values|
    ensures r.Some? ==> forall i :: 0 <= i < |values| ==>
      r.value[i] == ReceiverValue(xor, decode, hash, keyed, a, xor(ws, wr), malicious, values[i])
  {
    if malicious && commit(ws) != hws {
      return None;
    }
    var outputs := [];
    for i := 0 to |values|
      invariant |outputs| == i && forall j :: 0 <= j < i ==>
        outputs[j] == ReceiverValue(xor, decode, hash, keyed, a, xor(ws, wr), malicious, values[j])
    {
      var o := decode(a, values[i]);
      if malicious {
        o := xor(o, xor(ws, wr));
        o := keyed(o, values[i]);
      } else {
        o := hash(o);
      }
      outputs := outputs + [o];
    }
    r := Some(outputs);
  }

  /**
   * The whole exchange for a vector of less than two chunks: masked transfer, update, and both outputs. The receiver
   * has got the commitment hws before; it throws exactly if the half mask ws that arrives later is not the committed
   * one. For the encoded values both sides get the decoding of a, hashed with both half masks xored in, or as it is.
   */
  method Exchange<F(!new), V(!new), K(!new), C(==)>(
    s: Space<F, V>, decode: (seq<V>, K) -> V, h: K -> V, hash: V -> V, keyed: (V, K) -> V, commit: V -> C,
    sender: RsOprfSender<F, V>, a: seq<V>, c: seq<V>, p: array<V>, hws: C, ws: V, wr: V, values: seq<K>, chunk: nat)
    returns (outputs: Option<seq<V>>, evaluated: seq<V>)
    requires Laws(s) && Correlated(s, a, sender.b[..], c, sender.d) && FieldLinear(s, decode, |a|)
    requires p.Length == |a| < 2 * chunk && chunk >= 1 && chunk % UNROLL == 0 && p != sender.b
    requires forall i :: 0 <= i < |values| ==> decode(p[..], values[i]) == h(values[i])
    modifies p, sender`w, sender.b
    ensures outputs.None? <==> sender.malicious && commit(ws) != hws
    ensures |evaluated| == |values| && (outputs.Some? ==> outputs.value == evaluated)
    ensures forall i :: 0 <= i < |values| ==>
      evaluated[i] ==
        if sender.malicious then keyed(s.xor(decode(a, values[i]), s.xor(ws, wr)), values[i])
        else hash(decode(a, values[i]))
    ensures sender.b == old(sender.b) && sender.b.Length == |a|
    ensures forall i :: 0 <= i < |a| ==> sender.b[i] == s.xor(a[i], s.scale(sender.d, old(p[i])))
    ensures sender.w == if sender.malicious then s.xor(ws, wr) else old(sender.w)
  {
    hide Laws, FieldLinear, Correlated, ReceiverValue;
    ghost var p0, b0, d := p[..], sender.b[..], sender.d;
    SameSize(s, a, b0, c, d);
    var messages, complete := SendMasked(s.xor, p, c, chunk);
    ShortVectors(s.xor, p0, c, chunk);
    sender.Send(s, messages, ws, wr);
    UpdateGives(s, a, b0, c, p0, d);
    MasksCommute(s, ws, wr);
    outputs := Finish(s.xor, decode, hash, keyed, commit, a, hws, ws, wr, sender.malicious, values);
    evaluated := sender.Eval(s, decode, h, hash, keyed, values);
    forall i | 0 <= i < |values|
      ensures evaluated[i] == ReceiverValue(s.xor, decode, hash, keyed, a, s.xor(ws, wr), sender.malicious, values[i])
      ensures evaluated[i] == if sender.malicious then keyed(s.xor(decode(a, values[i]), s.xor(ws, wr)), values[i])
        else hash(decode(a, values[i]))
    {
      OprfAgrees(s, decode, h, hash, keyed, a, b0, c, p0, d, ws, wr, sender.malicious, values[i]);
      OutputIs(s.xor, decode, hash, keyed, a, s.xor(ws, wr), sender.malicious, values[i]);
    }
  }

  lemma OutputIs<V, K>(
    xor: (V, V) -> V, decode: (seq<V>, K) -> V, hash: V -> V, keyed: (V, K) -> V, a: seq<V>, w: V, malicious: bool,
    v: K)
    ensures ReceiverValue(xor, decode, hash, keyed, a, w, malicious, v) ==
      if malicious then keyed(xor(decode(a, v), w), v) else hash(decode(a, v))
  {}

  lemma MasksCommute<F(!new), V(!new)>(s: Space<F, V>, ws: V, wr: V)
    requires Laws(s)
    ensures s.xor(wr, ws) == s.xor(ws, wr)
  {
    hide XorLaws;
    XorComm(s.vzero, s.xor, ws, wr);
  }

  lemma SameSize<F, V>(s: Space<F, V>, a: seq<V>, b: seq<V>, c: seq<V>, d: F)
    requires Correlated(s, a, b, c, d)
    ensures |a| == |b| == |c|
  {}
}
