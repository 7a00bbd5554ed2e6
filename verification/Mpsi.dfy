/** The multi-party intersection: masked tables, re-encoded shares, and one two-party intersection at the end. */
module Mpsi {
  import opened Wrappers
  import opened Algebra

  // Vectors of blocks.

  ghost predicate AllOfSize<V>(l: seq<seq<V>>, size: nat) {
    forall i :: 0 <= i < |l| ==> |l[i]| == size
  }

  /** The base vector with all the listed ones xored in. */
  function XorAll<V>(xor: (V, V) -> V, base: seq<V>, l: seq<seq<V>>): (r: seq<V>)
    requires AllOfSize(l, |base|)
    ensures |r| == |base|
  {
    if l == [] then base else XorVec(xor, XorAll(xor, base, l[..|l| - 1]), l[|l| - 1])
  }

  /** Xors a vector into an array. */
  method XorInto<V>(xor: (V, V) -> V, a: array<V>, b: seq<V>)
    requires a.Length == |b|
    modifies a
    ensures a[..] == XorVec(xor, old(a[..]), b)
  {
    for j := 0 to a.Length
      invariant forall q :: 0 <= q < a.Length ==> a[q] == if q < j then xor(old(a[q]), b[q]) else old(a[q])
    {
      a[j] := xor(a[j], b[j]);
    }
  }

  /** Xors every listed vector into an array: how the receiver masks its table and the last sender combines them. */
  method XorAllInto<V>(xor: (V, V) -> V, a: array<V>, l: seq<seq<V>>)
    requires AllOfSize(l, a.Length)
    modifies a
    ensures a[..] == XorAll(xor, old(a[..]), l)
  {
    for i := 0 to |l|
      invariant AllOfSize(l[..i], a.Length) && a[..] == XorAll(xor, old(a[..]), l[..i])
    {
      assert l[..i + 1][..i] == l[..i];
      XorInto(xor, a, l[i]);
    }
    assert l[..|l|] == l;
  }

  /** The value with all the listed ones xored in. */
  ghost function XorValues<V>(xor: (V, V) -> V, v: V, l: seq<V>): V {
    if l == [] then v else xor(XorValues(xor, v, l[..|l| - 1]), l[|l| - 1])
  }

  /** Xoring the same list in twice gives the value back. */
  lemma {:induction false} XorValuesTwice<V(!new)>(vzero: V, xor: (V, V) -> V, v: V, l: seq<V>)
    requires XorLaws(vzero, xor)
    ensures XorValues(xor, XorValues(xor, v, l), l) == v
  {
    hide XorLaws;
    if l != [] {
      var init, x := l[..|l| - 1], l[|l| - 1];
      XorValuesMove(vzero, xor, XorValues(xor, v, init), x, init);
      XorValuesTwice(vzero, xor, v, init);
      XorCancel(vzero, xor, v, x);
    }
  }

  lemma {:induction false} XorValuesMove<V(!new)>(vzero: V, xor: (V, V) -> V, v: V, x: V, l: seq<V>)
    requires XorLaws(vzero, xor)
    ensures XorValues(xor, xor(v, x), l) == xor(XorValues(xor, v, l), x)
  {
    hide XorLaws;
    if l != [] {
      XorValuesMove(vzero, xor, v, x, l[..|l| - 1]);
      XorMove(vzero, xor, XorValues(xor, v, l[..|l| - 1]), x, l[|l| - 1]);
    }
  }

  // The parties and what they are given.

  /**
   * Party i holds inputs[i]; the last party is the receiver, the one before it the last sender, the others are
   * clients. decode and encode are the key-value store, psi is the two-party intersection: the places of the
   * receiver's values that the sender has as well.
   */
  datatype Setup<!K, !V> = Setup(
    inputs: seq<seq<K>>, rand: seq<V>, shares: seq<seq<V>>, size: nat, vzero: V, xor: (V, V) -> V,
    decode: (seq<V>, K) -> V, encode: (nat, seq<K>, seq<V>) -> seq<V>, psi: (seq<V>, seq<V>) -> seq<nat>) {
    function Clients(): nat
      requires |inputs| >= 2
    {
      |inputs| - 2
    }

    function Receiver(): nat
      requires |inputs| >= 2
    {
      |inputs| - 1
    }
  }

  ghost predicate LinearDecode<K(!new), V(!new)>(u: Setup<K, V>) {
    forall a: seq<V>, b: seq<V>, k: K :: |a| == |b| == u.size ==>
      u.decode(XorVec(u.xor, a, b), k) == u.xor(u.decode(a, k), u.decode(b, k))
  }

  /** Every party's encoding succeeds: each of its keys decodes to the value it was encoded with. */
  ghost predicate Encodes<K(!new), V(!new)>(u: Setup<K, V>) {
    forall p: nat, keys: seq<K>, x: seq<V> :: p < |u.inputs| && keys == u.inputs[p] && |x| == |keys| ==>
      EncodesTo(u, keys, x, u.encode(p, keys, x))
  }

  ghost predicate EncodesTo<K, V>(u: Setup<K, V>, keys: seq<K>, x: seq<V>, table: seq<V>)
    requires |x| == |keys|
  {
    |table| == u.size && forall i :: 0 <= i < |keys| ==> u.decode(table, keys[i]) == x[i]
  }

  ghost predicate IdealPsi<K, V(!new)>(u: Setup<K, V>) {
    forall a: seq<V>, b: seq<V> :: IsIntersection(a, b, u.psi(a, b))
  }

  /** The places of a whose values occur in b, each once. */
  ghost predicate IsIntersection<V>(a: seq<V>, b: seq<V>, places: seq<nat>) {
    Distinct(places) && forall i: nat :: i in places <==> i < |a| && a[i] in b
  }

  ghost predicate Ready<K(!new), V(!new)>(u: Setup<K, V>) {
    && |u.inputs| >= 2 && XorLaws(u.vzero, u.xor) && LinearDecode(u) && Encodes(u) && IdealPsi(u)
    && |u.rand| == |u.inputs[u.Receiver()]| && |u.shares| == u.Clients() && AllOfSize(u.shares, u.size)
  }

  // What the messages are.

  ghost function Table<K(!new), V(!new)>(u: Setup<K, V>): (t: seq<V>)
    requires Ready(u)
    ensures |t| == u.size
  {
    assert EncodesTo(u, u.inputs[u.Receiver()], u.rand, u.encode(u.Receiver(), u.inputs[u.Receiver()], u.rand));
    u.encode(u.Receiver(), u.inputs[u.Receiver()], u.rand)
  }

  /** The receiver's table masked by all shares. */
  ghost function MaskedTable<K(!new), V(!new)>(u: Setup<K, V>): (t: seq<V>)
    requires Ready(u)
    ensures |t| == u.size
  {
    XorAll(u.xor, Table(u), u.shares)
  }

  function DecodeAll<K, V>(u: Setup<K, V>, table: seq<V>, keys: seq<K>): (x: seq<V>)
    ensures |x| == |keys|
  {
    seq(|keys|, j requires 0 <= j < |keys| => u.decode(table, keys[j]))
  }

  /** What client i sends: its keys' values under its share, encoded again. */
  ghost function ReplyOf<K(!new), V(!new)>(u: Setup<K, V>, i: nat): (t: seq<V>)
    requires Ready(u) && i < u.Clients()
    ensures |t| == u.size
  {
    var x := DecodeAll(u, u.shares[i], u.inputs[i]);
    assert EncodesTo(u, u.inputs[i], x, u.encode(i, u.inputs[i], x));
    u.encode(i, u.inputs[i], x)
  }

  ghost function Replies<K(!new), V(!new)>(u: Setup<K, V>, n: nat): (l: seq<seq<V>>)
    requires Ready(u) && n <= u.Clients()
    ensures |l| == n && AllOfSize(l, u.size)
  {
    seq(n, i requires 0 <= i < n => ReplyOf(u, i))
  }

  /** What the last sender decodes for its inputs. */
  ghost function Results<K(!new), V(!new)>(u: Setup<K, V>): (x: seq<V>)
    requires Ready(u)
  {
    DecodeAll(u, XorAll(u.xor, MaskedTable(u), Replies(u, u.Clients())), u.inputs[u.Clients()])
  }

  function Picked<K>(inputs: seq<K>, places: seq<nat>): (r: seq<K>)
    requires forall j :: 0 <= j < |places| ==> places[j] < |inputs|
  {
    seq(|places|, j requires 0 <= j < |places| => inputs[places[j]])
  }

  lemma PlacesInRange<V>(a: seq<V>, b: seq<V>, places: seq<nat>)
    requires IsIntersection(a, b, places)
    ensures forall j :: 0 <= j < |places| ==> places[j] < |a|
  {
    forall j | 0 <= j < |places|
      ensures places[j] < |a|
    {
      assert places[j] in places;
    }
  }

  ghost function Output<K(!new), V(!new)>(u: Setup<K, V>): seq<K>
    requires Ready(u)
  {
    assert IsIntersection(u.rand, Results(u), u.psi(u.rand, Results(u)));
    PlacesInRange(u.rand, Results(u), u.psi(u.rand, Results(u)));
    Picked(u.inputs[u.Receiver()], u.psi(u.rand, Results(u)))
  }

  // The algebra of the shares.

  /** The decodings of each listed vector. */
  ghost function Decodings<K, V>(u: Setup<K, V>, l: seq<seq<V>>, k: K): (r: seq<V>)
    ensures |r| == |l|
  {
    seq(|l|, i requires 0 <= i < |l| => u.decode(l[i], k))
  }

  /** Decoding a sum of vectors sums the decodings. */
  lemma {:induction false} DecodeXorAll<K(!new), V(!new)>(u: Setup<K, V>, base: seq<V>, l: seq<seq<V>>, k: K)
    requires LinearDecode(u) && |base| == u.size && AllOfSize(l, u.size)
    ensures u.decode(XorAll(u.xor, base, l), k) == XorValues(u.xor, u.decode(base, k), Decodings(u, l, k))
  {
    if l != [] {
      var init := l[..|l| - 1];
      DecodeXorAll(u, base, init, k);
      assert Decodings(u, l, k)[..|l| - 1] == Decodings(u, init, k);
    }
  }

  ghost predicate HeldByAll<K, V>(u: Setup<K, V>, e: K) {
    forall p :: 0 <= p < |u.inputs| ==> e in u.inputs[p]
  }

  /** A key that every client holds decodes at the last sender to what the receiver's own table gives. */
  lemma SharesCancel<K(!new), V(!new)>(u: Setup<K, V>, e: K)
    requires Ready(u) && forall i :: 0 <= i < u.Clients() ==> e in u.inputs[i]
    ensures u.decode(XorAll(u.xor, MaskedTable(u), Replies(u, u.Clients())), e) == u.decode(Table(u), e)
  {
    hide XorLaws, IdealPsi;
    var replies := Replies(u, u.Clients());
    forall i | 0 <= i < u.Clients()
      ensures Decodings(u, replies, e)[i] == Decodings(u, u.shares, e)[i]
    {
      var j :| 0 <= j < |u.inputs[i]| && u.inputs[i][j] == e;
      var x := DecodeAll(u, u.shares[i], u.inputs[i]);
      assert EncodesTo(u, u.inputs[i], x, u.encode(i, u.inputs[i], x));
    }
    assert Decodings(u, replies, e) == Decodings(u, u.shares, e);
    DecodeXorAll(u, MaskedTable(u), replies, e);
    DecodeXorAll(u, Table(u), u.shares, e);
    XorValuesTwice(u.vzero, u.xor, u.decode(Table(u), e), Decodings(u, u.shares, e));
  }

  /** Completeness, for any number of parties: an element that all parties hold is in the output. */
  lemma CommonIsFound<K(!new), V(!new)>(u: Setup<K, V>, e: K)
    requires Ready(u) && HeldByAll(u, e)
    ensures e in Output(u)
  {
    hide XorLaws, LinearDecode;
    SharesCancel(u, e);
    var mine, last := u.inputs[u.Receiver()], u.inputs[u.Clients()];
    assert EncodesTo(u, mine, u.rand, Table(u));
    var i :| 0 <= i < |mine| && mine[i] == e;
    var j :| 0 <= j < |last| && last[j] == e;
    assert Results(u)[j] == u.rand[i];
    var places := u.psi(u.rand, Results(u));
    assert IsIntersection(u.rand, Results(u), places);
    assert i in places;
    var q :| 0 <= q < |places| && places[q] == i;
    PlacesInRange(u.rand, Results(u), places);
    assert Output(u)[q] == e;
  }

  /** Exactly the elements whose random value the last sender decoded somewhere are output. */
  lemma OutputExact<K(!new), V(!new)>(u: Setup<K, V>, e: K)
    requires Ready(u)
    ensures e in Output(u) <==>
      exists i :: 0 <= i < |u.rand| && u.inputs[u.Receiver()][i] == e && u.rand[i] in Results(u)
  {
    hide XorLaws, LinearDecode, Results, Encodes;
    var places := u.psi(u.rand, Results(u));
    assert IsIntersection(u.rand, Results(u), places);
    PlacesInRange(u.rand, Results(u), places);
    var mine := u.inputs[u.Receiver()];
    if e in Output(u) {
      var q :| 0 <= q < |places| && Output(u)[q] == e;
      assert places[q] in places;
    }
    if i :| 0 <= i < |u.rand| && mine[i] == e && u.rand[i] in Results(u) {
      assert i in places;
      var q :| 0 <= q < |places| && places[q] == i;
      assert Output(u)[q] == e;
    }
  }

  // An element that one client lacks.

  /** Two lists that differ at one place leave what they hold there. */
  lemma {:induction false} XorValuesTwiceBut<V(!new)>(
    vzero: V, xor: (V, V) -> V, v: V, a: seq<V>, b: seq<V>, i: nat)
    requires XorLaws(vzero, xor) && i < |a| == |b| && forall j :: 0 <= j < |a| && j != i ==> a[j] == b[j]
    ensures XorValues(xor, XorValues(xor, v, a), b) == xor(xor(v, a[i]), b[i])
  {
    hide XorLaws;
    var last := |a| - 1;
    XorValuesMove(vzero, xor, XorValues(xor, v, a[..last]), a[last], b[..last]);
    if i == last {
      assert a[..last] == b[..last];
      XorValuesTwice(vzero, xor, v, a[..last]);
    } else {
      XorValuesTwiceBut(vzero, xor, v, a[..last], b[..last], i);
      XorCancel(vzero, xor, xor(xor(v, a[i]), b[i]), a[last]);
    }
  }

  /** What the last sender decodes for any key, from the receiver's table, the shares and the replies. */
  lemma DecodedSum<K(!new), V(!new)>(u: Setup<K, V>, e: K)
    requires Ready(u)
    ensures u.decode(XorAll(u.xor, MaskedTable(u), Replies(u, u.Clients())), e) ==
      XorValues(u.xor, XorValues(u.xor, u.decode(Table(u), e), Decodings(u, u.shares, e)),
                Decodings(u, Replies(u, u.Clients()), e))
  {
    hide XorLaws, IdealPsi, Encodes;
    DecodeXorAll(u, MaskedTable(u), Replies(u, u.Clients()), e);
    DecodeXorAll(u, Table(u), u.shares, e);
  }

  /** The reply of a client, written out: its share decoded at its keys, and encoded again. */
  ghost function Reencoded<K, V>(u: Setup<K, V>, i: nat): seq<V>
    requires i < |u.inputs| && i < |u.shares|
  {
    u.encode(i, u.inputs[i], seq(|u.inputs[i]|, j requires 0 <= j < |u.inputs[i]| => u.decode(u.shares[i],
      u.inputs[i][j])))
  }

  lemma ReplyIsReencoded<K(!new), V(!new)>(u: Setup<K, V>, i: nat)
    requires Ready(u) && i < u.Clients()
    ensures ReplyOf(u, i) == Reencoded(u, i)
  {
    hide XorLaws, IdealPsi, Encodes, LinearDecode;
    assert DecodeAll(u, u.shares[i], u.inputs[i]) ==
      seq(|u.inputs[i]|, j requires 0 <= j < |u.inputs[i]| => u.decode(u.shares[i], u.inputs[i][j]));
  }

  /** Party i aside, all parties hold e, the receiver at place q of its inputs. */
  ghost predicate HeldBesides<K, V>(u: Setup<K, V>, i: nat, e: K, q: nat)
    requires |u.inputs| >= 2
  {
    && i < u.Clients() && (forall p :: 0 <= p < |u.inputs| && p != i ==> e in u.inputs[p])
    && q < |u.inputs[u.Receiver()]| && u.inputs[u.Receiver()][q] == e
  }

  /** If all parties but client i hold e, the last sender decodes the receiver's random value for e up to the difference
      of what the share of client i and its reply decode to. */
  lemma OneClientLacks<K(!new), V(!new)>(u: Setup<K, V>, i: nat, e: K, q: nat)
    requires Ready(u) && HeldBesides(u, i, e, q)
    ensures u.decode(XorAll(u.xor, MaskedTable(u), Replies(u, u.Clients())), e) ==
      u.xor(u.xor(u.rand[q], u.decode(u.shares[i], e)), u.decode(Reencoded(u, i), e))
  {
    hide XorLaws, IdealPsi, LinearDecode;
    DecodedSum(u, e);
    var a, b := Decodings(u, u.shares, e), Decodings(u, Replies(u, u.Clients()), e);
    forall j | 0 <= j < u.Clients() && j != i
      ensures a[j] == b[j]
    {
      ReplyDecodes(u, j, e);
    }
    ReplyIsReencoded(u, i);
    var mine := u.inputs[u.Receiver()];
    assert EncodesTo(u, mine, u.rand, Table(u));
    XorValuesTwiceBut(u.vzero, u.xor, u.rand[q], a, b, i);
  }

  /** What a client holds, its reply decodes to the same as its share. */
  lemma ReplyDecodes<K(!new), V(!new)>(u: Setup<K, V>, i: nat, e: K)
    requires Ready(u) && i < u.Clients() && e in u.inputs[i]
    ensures u.decode(ReplyOf(u, i), e) == u.decode(u.shares[i], e)
  {
    hide XorLaws, IdealPsi, LinearDecode;
    var j :| 0 <= j < |u.inputs[i]| && u.inputs[i][j] == e;
    var x := DecodeAll(u, u.shares[i], u.inputs[i]);
    assert EncodesTo(u, u.inputs[i], x, u.encode(i, u.inputs[i], x));
  }

  /** The last sender decodes the random value of q for none of its inputs but e. */
  ghost predicate NoChanceMatch<K(!new), V(!new)>(u: Setup<K, V>, e: K, q: nat)
    requires Ready(u) && q < |u.rand|
  {
    forall j :: 0 <= j < |u.inputs[u.Clients()]| && u.inputs[u.Clients()][j] != e ==> Results(u)[j] != u.rand[q]
  }

  /**
   * Exclusion: if all parties but client i hold e, and no other input of the last sender decodes to the random value of
   * e by chance, e is output exactly if the share of client i and its reply agree at e.
   */
  lemma LackingIsExcluded<K(!new), V(!new)>(u: Setup<K, V>, i: nat, e: K, q: nat)
    requires Ready(u) && HeldBesides(u, i, e, q) && Distinct(u.inputs[u.Receiver()]) && NoChanceMatch(u, e, q)
    ensures e in Output(u) <==> u.decode(u.shares[i], e) == u.decode(Reencoded(u, i), e)
  {
    hide XorLaws, LinearDecode, Encodes, IdealPsi;
    OneClientLacks(u, i, e, q);
    OutputExact(u, e);
    var last := u.inputs[u.Clients()];
    var j :| 0 <= j < |last| && last[j] == e;
    var value := Results(u)[j];
    assert value == u.xor(u.xor(u.rand[q], u.decode(u.shares[i], e)), u.decode(Reencoded(u, i), e));
    SameAsBefore(u.vzero, u.xor, u.rand[q], u.decode(u.shares[i], e), u.decode(Reencoded(u, i), e));
    assert u.rand[q] in Results(u) <==> value == u.rand[q];
  }

  lemma SameAsBefore<V(!new)>(vzero: V, xor: (V, V) -> V, v: V, a: V, b: V)
    requires XorLaws(vzero, xor)
    ensures xor(xor(v, a), b) == v <==> a == b
  {
    hide XorLaws;
    XorCancel(vzero, xor, v, a);
    XorAssoc(vzero, xor, v, a, b);
    XorComm(vzero, xor, v, xor(a, b));
    XorMove(vzero, xor, xor(a, b), v, v);
    XorZero(vzero, xor, v);
    XorMove(vzero, xor, a, b, vzero);
    XorZero(vzero, xor, b);
    XorComm(vzero, xor, vzero, b);
  }

  // The protocol as steps of its parties.

  /** A message link: nothing sent, a message under way, or the message received. */
  datatype Link<V> = Idle | OnTheWay(message: seq<V>) | Received(message: seq<V>)

  /** down[i] leads from the receiver to client i, the last of them to the last sender; up[i] from client i to it. */
  datatype State<K, V> = State(
    down: seq<Link<V>>, up: seq<Link<V>>, result: Option<seq<V>>, output: Option<seq<K>>) {
    ghost predicate Shape(clients: nat) {
      |down| == clients + 1 && |up| == clients
    }
  }

  datatype Action = Send(to: nat) | Receive(at: nat) | Reply(from: nat) | Collect(client: nat) | Combine | Intersect

  ghost function Init<K(!new), V(!new)>(u: Setup<K, V>): (s: State<K, V>)
    requires Ready(u)
    ensures s.Shape(u.Clients())
  {
    State(seq(u.Clients() + 1, _ => Idle), seq(u.Clients(), _ => Idle), None, None)
  }

  ghost predicate Enabled<K(!new), V(!new)>(u: Setup<K, V>, s: State<K, V>, a: Action)
    requires Ready(u) && s.Shape(u.Clients())
  {
    match a
    case Send(i) => i <= u.Clients() && s.down[i].Idle?
    case Receive(i) => i <= u.Clients() && s.down[i].OnTheWay?
    case Reply(i) => i < u.Clients() && s.down[i].Received? && |s.down[i].message| == u.size && s.up[i].Idle?
    case Collect(i) => i < u.Clients() && s.down[u.Clients()].Received? && s.up[i].OnTheWay?
    case Combine =>
      s.result.None? && s.down[u.Clients()].Received? && (forall i :: 0 <= i < u.Clients() ==> s.up[i].Received?)
      && AllOfSize(Messages(s.up), |s.down[u.Clients()].message|)
    case Intersect => s.output.None? && s.result.Some? && forall i :: 0 <= i <= u.Clients() ==> !s.down[i].Idle?
  }

  ghost function Messages<V>(links: seq<Link<V>>): (l: seq<seq<V>>)
    ensures |l| == |links|
  {
    seq(|links|, i requires 0 <= i < |links| => if links[i].Idle? then [] else links[i].message)
  }

  ghost function Step<K(!new), V(!new)>(u: Setup<K, V>, s: State<K, V>, a: Action): (r: State<K, V>)
    requires Ready(u) && s.Shape(u.Clients()) && Enabled(u, s, a)
    ensures r.Shape(u.Clients())
  {
    match a
    case Send(i) =>
      s.(down := s.down[i := OnTheWay(if i < u.Clients() then u.shares[i] else MaskedTable(u))])
    case Receive(i) => s.(down := s.down[i := Received(s.down[i].message)])
    case Reply(i) =>
      var x := DecodeAll(u, s.down[i].message, u.inputs[i]);
      s.(up := s.up[i := OnTheWay(u.encode(i, u.inputs[i], x))])
    case Collect(i) => s.(up := s.up[i := Received(s.up[i].message)])
    case Combine =>
      var sum := XorAll(u.xor, s.down[u.Clients()].message, Messages(s.up));
      s.(result := Some(DecodeAll(u, sum, u.inputs[u.Clients()])))
    case Intersect =>
      var places := u.psi(u.rand, s.result.value);
      assert IsIntersection(u.rand, s.result.value, places);
      PlacesInRange(u.rand, s.result.value, places);
      s.(output := Some(Picked(u.inputs[u.Receiver()], places)))
  }

  /** The state after the scheduled actions; an action that is not enabled is passed over. */
  ghost function Run<K(!new), V(!new)>(u: Setup<K, V>, schedule: seq<Action>): (s: State<K, V>)
    requires Ready(u)
    ensures s.Shape(u.Clients())
  {
    if schedule == [] then Init(u)
    else
      var s := Run(u, schedule[..|schedule| - 1]);
      var a := schedule[|schedule| - 1];
      if Enabled(u, s, a) then Step(u, s, a) else s
  }

  /** Whatever has been sent is what the protocol says, in every order of sends and receives. */
  ghost predicate Inv<K(!new), V(!new)>(u: Setup<K, V>, s: State<K, V>)
    requires Ready(u)
  {
    && s.Shape(u.Clients())
    && (forall i :: 0 <= i < u.Clients() ==> Carries(s.down[i], u.shares[i]))
    && Carries(s.down[u.Clients()], MaskedTable(u))
    && (forall i :: 0 <= i < u.Clients() ==> Carries(s.up[i], ReplyOf(u, i)))
    && (forall i :: 0 <= i < u.Clients() && !s.up[i].Idle? ==> !s.down[i].Idle?)
    && (s.result.Some? ==> s.result.value == Results(u) && !s.down[u.Clients()].Idle?)
    && (s.result.Some? ==> forall i :: 0 <= i < u.Clients() ==> !s.up[i].Idle?)
    && (s.output.Some? ==> s.output.value == Output(u))
  }

  ghost predicate Carries<V>(link: Link<V>, message: seq<V>) {
    link.Idle? || link.message == message
  }

  lemma StepKeeps<K(!new), V(!new)>(u: Setup<K, V>, s: State<K, V>, a: Action)
    requires Ready(u) && Inv(u, s) && Enabled(u, s, a)
    ensures Inv(u, Step(u, s, a))
  {
    hide Ready, MaskedTable, ReplyOf, Results, Output;
    match a {
      case Send(_) =>
      case Receive(_) =>
      case Reply(i) => ReplyMessage(u, i);
      case Collect(_) =>
      case Combine =>
        assert Messages(s.up) == Replies(u, u.Clients());
        CombinedResults(u);
      case Intersect => IntersectedOutput(u);
    }
  }

  lemma ReplyMessage<K(!new), V(!new)>(u: Setup<K, V>, i: nat)
    requires Ready(u) && i < u.Clients()
    ensures |u.shares| == u.Clients()
    ensures ReplyOf(u, i) == u.encode(i, u.inputs[i], DecodeAll(u, u.shares[i], u.inputs[i]))
  {}

  lemma CombinedResults<K(!new), V(!new)>(u: Setup<K, V>)
    requires Ready(u)
    ensures Results(u) == DecodeAll(u, XorAll(u.xor, MaskedTable(u), Replies(u, u.Clients())), u.inputs[u.Clients()])
  {}

  lemma IntersectedOutput<K(!new), V(!new)>(u: Setup<K, V>)
    requires Ready(u)
    ensures var places := u.psi(u.rand, Results(u));
      (forall j :: 0 <= j < |places| ==> places[j] < |u.inputs[u.Receiver()]|) &&
      Output(u) == Picked(u.inputs[u.Receiver()], places)
  {
    hide Results, LinearDecode, Encodes;
    assert IsIntersection(u.rand, Results(u), u.psi(u.rand, Results(u)));
    PlacesInRange(u.rand, Results(u), u.psi(u.rand, Results(u)));
  }

  lemma {:induction false} RunKeeps<K(!new), V(!new)>(u: Setup<K, V>, schedule: seq<Action>)
    requires Ready(u)
    ensures Inv(u, Run(u, schedule))
  {
    hide Ready, Enabled, Step;
    if schedule != [] {
      var s := Run(u, schedule[..|schedule| - 1]);
      var a := schedule[|schedule| - 1];
      RunKeeps(u, schedule[..|schedule| - 1]);
      if Enabled(u, s, a) {
        StepKeeps(u, s, a);
      }
    }
  }

  /** In every order of sends and receives, a run that has an output outputs every element that all parties hold. */
  lemma EveryOrderFindsCommon<K(!new), V(!new)>(u: Setup<K, V>, schedule: seq<Action>, e: K)
    requires Ready(u) && HeldByAll(u, e) && Run(u, schedule).output.Some?
    ensures e in Run(u, schedule).output.value && e in u.inputs[u.Receiver()]
  {
    hide Ready, Run;
    RunKeeps(u, schedule);
    CommonIsFound(u, e);
    LastHolds(u, e);
  }

  lemma LastHolds<K(!new), V(!new)>(u: Setup<K, V>, e: K)
    requires Ready(u) && HeldByAll(u, e)
    ensures e in u.inputs[u.Receiver()]
  {}

  /** The entries of the listed vectors at one position. */
  ghost function EntriesAt<V>(l: seq<seq<V>>, j: nat): (r: seq<V>)
    requires forall i :: 0 <= i < |l| ==> j < |l[i]|
    ensures |r| == |l|
  {
    seq(|l|, i requires 0 <= i < |l| => l[i][j])
  }

  lemma {:induction false} XorAllAt<V>(xor: (V, V) -> V, base: seq<V>, l: seq<seq<V>>, j: nat)
    requires AllOfSize(l, |base|) && j < |base|
    ensures XorAll(xor, base, l)[j] == XorValues(xor, base[j], EntriesAt(l, j))
  {
    if l != [] {
      XorAllAt(xor, base, l[..|l| - 1], j);
      assert EntriesAt(l, j)[..|l| - 1] == EntriesAt(l[..|l| - 1], j);
    }
  }

  /**
   * In every order of sends and receives: client i is sent its share, the last sender the receiver's table with the
   * entries of all shares xored in at every position, and it receives from client i the share as encoded again.
   */
  lemma MessagesAre<K(!new), V(!new)>(u: Setup<K, V>, schedule: seq<Action>)
    requires Ready(u)
    ensures |u.shares| == u.Clients() && AllOfSize(u.shares, u.size)
    ensures var s := Run(u, schedule);
      && (forall i :: 0 <= i < u.Clients() && !s.down[i].Idle? ==> s.down[i].message == u.shares[i])
      && (forall i :: 0 <= i < u.Clients() && !s.up[i].Idle? ==> s.up[i].message == Reencoded(u, i))
    ensures var link, table := Run(u, schedule).down[u.Clients()],
      u.encode(u.Receiver(), u.inputs[u.Receiver()], u.rand);
      !link.Idle? ==>
        && |link.message| == |table| == u.size
        && forall j :: 0 <= j < u.size ==> link.message[j] == XorValues(u.xor, table[j], EntriesAt(u.shares, j))
  {
    hide XorLaws, LinearDecode, Encodes, IdealPsi, Run;
    RunKeeps(u, schedule);
    forall i | 0 <= i < u.Clients()
      ensures ReplyOf(u, i) == Reencoded(u, i)
    {
      ReplyIsReencoded(u, i);
    }
    forall j | 0 <= j < u.size
      ensures MaskedTable(u)[j] == XorValues(u.xor, Table(u)[j], EntriesAt(u.shares, j))
    {
      XorAllAt(u.xor, Table(u), u.shares, j);
    }
  }

  /** In every order: an element that client i alone lacks is output exactly if its share and its reply agree there. */
  lemma EveryOrderExcludes<K(!new), V(!new)>(u: Setup<K, V>, schedule: seq<Action>, i: nat, e: K, q: nat)
    requires Ready(u) && HeldBesides(u, i, e, q) && Distinct(u.inputs[u.Receiver()]) && NoChanceMatch(u, e, q)
    requires Run(u, schedule).output.Some?
    ensures e in Run(u, schedule).output.value <==> u.decode(u.shares[i], e) == u.decode(Reencoded(u, i), e)
  {
    hide LinearDecode, Encodes, IdealPsi, Run, NoChanceMatch, XorLaws;
    RunKeeps(u, schedule);
    LackingIsExcluded(u, i, e, q);
  }

  /** As long as there is no output, some action is enabled. */
  lemma NoDeadlock<K(!new), V(!new)>(u: Setup<K, V>, schedule: seq<Action>)
    requires Ready(u)
    ensures var s := Run(u, schedule); s.output.Some? || exists a :: Enabled(u, s, a)
  {
    hide Ready, Run, MaskedTable, ReplyOf, Results, Output;
    RunKeeps(u, schedule);
    var s := Run(u, schedule);
    if s.output.None? {
      if i :| 0 <= i <= u.Clients() && s.down[i].Idle? {
        assert Enabled(u, s, Send(i));
      } else if i :| 0 <= i <= u.Clients() && s.down[i].OnTheWay? {
        assert Enabled(u, s, Receive(i));
      } else if i :| 0 <= i < u.Clients() && s.up[i].Idle? {
        ShareSize(u, i);
        assert Enabled(u, s, Reply(i));
      } else if i :| 0 <= i < u.Clients() && s.up[i].OnTheWay? {
        assert Enabled(u, s, Collect(i));
      } else if s.result.None? {
        assert Messages(s.up) == Replies(u, u.Clients());
        assert Enabled(u, s, Combine);
      } else {
        assert Enabled(u, s, Intersect);
      }
    }
  }

  lemma ShareSize<K(!new), V(!new)>(u: Setup<K, V>, i: nat)
    requires Ready(u) && i < u.Clients()
    ensures |u.shares| == u.Clients() && |u.shares[i]| == u.size
  {}

  // Every run ends: each action that is taken leaves one less to take.

  /** How often a link still has to change. */
  function LinkWork<V>(link: Link<V>): nat {
    match link
    case Idle => 2
    case OnTheWay(_) => 1
    case Received(_) => 0
  }

  function LinksWork<V>(links: seq<Link<V>>): nat {
    if links == [] then 0 else LinksWork(links[..|links| - 1]) + LinkWork(links[|links| - 1])
  }

  lemma {:induction false} LinkStep<V>(links: seq<Link<V>>, i: nat, link: Link<V>)
    requires i < |links| && LinkWork(link) == LinkWork(links[i]) - 1
    ensures LinksWork(links[i := link]) == LinksWork(links) - 1
  {
    var last := |links| - 1;
    if i < last {
      assert links[i := link][..last] == links[..last][i := link];
      LinkStep(links[..last], i, link);
    } else {
      assert links[i := link][..last] == links[..last];
    }
  }

  lemma {:induction false} IdleWork<V>(n: nat)
    ensures LinksWork(seq(n, _ => Link<V>.Idle)) == 2 * n
  {
    if n > 0 {
      IdleWork<V>(n - 1);
      assert seq(n, _ => Link<V>.Idle)[..n - 1] == seq(n - 1, _ => Link<V>.Idle);
    }
  }

  /** The actions that are still to be taken. */
  ghost function Remaining<K, V>(s: State<K, V>): nat {
    LinksWork(s.down) + LinksWork(s.up) + (if s.result.None? then 1 else 0) + if s.output.None? then 1 else 0
  }

  /** The actions of the schedule that were enabled in their turn. */
  ghost function Taken<K(!new), V(!new)>(u: Setup<K, V>, schedule: seq<Action>): nat
    requires Ready(u)
  {
    if schedule == [] then 0
    else
      var init, a := schedule[..|schedule| - 1], schedule[|schedule| - 1];
      Taken(u, init) + if Enabled(u, Run(u, init), a) then 1 else 0
  }

  lemma StepWorks<K(!new), V(!new)>(u: Setup<K, V>, s: State<K, V>, a: Action)
    requires Ready(u) && s.Shape(u.Clients()) && Enabled(u, s, a)
    ensures Remaining(Step(u, s, a)) == Remaining(s) - 1
  {
    hide Ready, LinksWork;
    var r := Step(u, s, a);
    match a {
      case Send(i) => LinkStep(s.down, i, r.down[i]);
      case Receive(i) => LinkStep(s.down, i, r.down[i]);
      case Reply(i) => LinkStep(s.up, i, r.up[i]);
      case Collect(i) => LinkStep(s.up, i, r.up[i]);
      case Combine =>
      case Intersect =>
    }
  }

  /** A run takes at most four actions for each client and four more, and it has an output once it took them all: with
      NoDeadlock, a run that goes on as long as some action is enabled has an output. */
  lemma {:induction false} RunsEnd<K(!new), V(!new)>(u: Setup<K, V>, schedule: seq<Action>)
    requires Ready(u)
    ensures Taken(u, schedule) + Remaining(Run(u, schedule)) == 4 * u.Clients() + 4
    ensures Taken(u, schedule) == 4 * u.Clients() + 4 ==> Run(u, schedule).output.Some?
  {
    hide Ready, Enabled, Step, LinksWork;
    if schedule == [] {
      AllIdle(u);
      IdleWork<V>(u.Clients() + 1);
      IdleWork<V>(u.Clients());
    } else {
      var init, a := schedule[..|schedule| - 1], schedule[|schedule| - 1];
      RunsEnd(u, init);
      if Enabled(u, Run(u, init), a) {
        StepWorks(u, Run(u, init), a);
      }
    }
  }

  lemma AllIdle<K(!new), V(!new)>(u: Setup<K, V>)
    requires Ready(u)
    ensures |u.inputs| >= 2
    ensures Init(u).down == seq(u.Clients() + 1, _ => Idle) && Init(u).up == seq(u.Clients(), _ => Idle)
    ensures Init(u).result.None? && Init(u).output.None?
  {}

  // What is asked of the store and of the two-party intersection can be met: by a table with one slot for each key.

  ghost function Slot<V>(vzero: V, keys: seq<nat>, x: seq<V>, k: nat): V
    requires |keys| == |x|
  {
    if keys == [] then vzero
    else if keys[|keys| - 1] == k then x[|keys| - 1]
    else Slot(vzero, keys[..|keys| - 1], x[..|keys| - 1], k)
  }

  lemma {:induction false} SlotOf<V>(vzero: V, keys: seq<nat>, x: seq<V>, i: nat)
    requires |keys| == |x| && i < |keys| && Distinct(keys)
    ensures Slot(vzero, keys, x, keys[i]) == x[i]
  {
    var last := |keys| - 1;
    if i < last {
      SlotOf(vzero, keys[..last], x[..last], i);
    }
  }

  ghost function CommonPlaces<V>(a: seq<V>, b: seq<V>): seq<nat> {
    if a == [] then []
    else CommonPlaces(a[..|a| - 1], b) + if a[|a| - 1] in b then [|a| - 1] else []
  }

  lemma {:induction false} CommonPlacesExact<V>(a: seq<V>, b: seq<V>)
    ensures IsIntersection(a, b, CommonPlaces(a, b))
  {
    if a != [] {
      CommonPlacesExact(a[..|a| - 1], b);
      var init := CommonPlaces(a[..|a| - 1], b);
      forall k | 0 <= k < |init|
        ensures init[k] < |a| - 1
      {
        assert init[k] in init;
      }
    }
  }

  ghost function DirectEncode<V>(size: nat, vzero: V, keys: seq<nat>, x: seq<V>): (table: seq<V>) {
    if |keys| == |x| then seq(size, k requires 0 <= k < size => Slot(vzero, keys, x, k)) else []
  }

  ghost function DirectSetup<V(!new)>(
    inputs: seq<seq<nat>>, rand: seq<V>, shares: seq<seq<V>>, size: nat, vzero: V, xor: (V, V) -> V): Setup<nat, V>
  {
    Setup(inputs, rand, shares, size, vzero, xor,
      (t: seq<V>, k: nat) => if k < |t| then t[k] else vzero,
      (p: nat, keys: seq<nat>, x: seq<V>) => DirectEncode(size, vzero, keys, x),
      (a: seq<V>, b: seq<V>) => CommonPlaces(a, b))
  }

  /** For all inputs without repeated keys there is a store and an intersection that meet the contract. */
  lemma ContractIsMet<V(!new)>(
    inputs: seq<seq<nat>>, rand: seq<V>, shares: seq<seq<V>>, size: nat, vzero: V, xor: (V, V) -> V)
    requires |inputs| >= 2 && XorLaws(vzero, xor)
    requires forall p :: 0 <= p < |inputs| ==> Distinct(inputs[p]) && InRange(inputs[p], size)
    requires |rand| == |inputs[|inputs| - 1]| && |shares| == |inputs| - 2 && AllOfSize(shares, size)
    ensures Ready(DirectSetup(inputs, rand, shares, size, vzero, xor))
  {
    hide XorLaws;
    var u := DirectSetup(inputs, rand, shares, size, vzero, xor);
    XorZero(vzero, xor, vzero);
    forall p: nat, keys: seq<nat>, x: seq<V> | p < |inputs| && keys == inputs[p] && |x| == |keys|
      ensures EncodesTo(u, keys, x, u.encode(p, keys, x))
    {
      forall i | 0 <= i < |keys|
        ensures u.decode(u.encode(p, keys, x), keys[i]) == x[i]
      {
        SlotOf(vzero, keys, x, i);
      }
    }
    forall a: seq<V>, b: seq<V>
      ensures IsIntersection(a, b, u.psi(a, b))
    {
      CommonPlacesExact(a, b);
    }
  }
}
