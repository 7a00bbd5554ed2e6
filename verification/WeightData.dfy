/** The bucketed, intrusive doubly linked lists that track the weights of the sparse columns. */
module WeightSets {
  import opened Wrappers
  import opened Algebra

  const NULL_NODE := -1
  const INITIAL_SETS := 200

  datatype WeightNode = WeightNode(weight: nat, prev: int, next: int)

  // One bucket: the list of the columns of one weight.

  ghost function PrevOf(l: seq<nat>, k: int): int
    requires 0 <= k < |l|
  {
    if k == 0 then NULL_NODE else l[k - 1]
  }

  ghost function NextOf(l: seq<nat>, k: int): int
    requires 0 <= k < |l|
  {
    if k == |l| - 1 then NULL_NODE else l[k + 1]
  }

  /** The nodes reachable from head are exactly l, all of weight w, with mirrored links. */
  ghost predicate IsBucket(nodes: seq<WeightNode>, head: int, w: nat, l: seq<nat>) {
    && head == (if |l| == 0 then NULL_NODE else l[0])
    && (forall k :: 0 <= k < |l| ==> l[k] < |nodes|)
    && (forall k :: 0 <= k < |l| ==> nodes[l[k]] == WeightNode(w, PrevOf(l, k), NextOf(l, k)))
    && Distinct(l)
  }

  ghost function RemoveAt(l: seq<nat>, k: int): seq<nat>
    requires 0 <= k < |l|
  {
    l[..k] + l[k + 1..]
  }

  /** The first position of n in l. */
  ghost function IndexOf(l: seq<nat>, n: nat): (k: nat)
    requires n in l
    ensures k < |l| && l[k] == n
  {
    if l[0] == n then 0 else 1 + IndexOf(l[1..], n)
  }

  ghost function Without(l: seq<nat>, n: nat): seq<nat> {
    if n in l then RemoveAt(l, IndexOf(l, n)) else l
  }

  /** Drops the empty buckets at the end. */
  ghost function Trim(lists: seq<seq<nat>>): (r: seq<seq<nat>>)
    ensures r <= lists
    ensures r != [] ==> r[|r| - 1] != []
    ensures forall w :: |r| <= w < |lists| ==> lists[w] == []
  {
    if lists != [] && lists[|lists| - 1] == [] then Trim(lists[..|lists| - 1]) else lists
  }

  /** Extends the buckets so that weight w has one. */
  ghost function Extend(lists: seq<seq<nat>>, w: nat): (r: seq<seq<nat>>)
    ensures |r| == (if |lists| <= w then w + 1 else |lists|)
    ensures forall i :: 0 <= i < |r| ==> r[i] == if i < |lists| then lists[i] else []
  {
    if |lists| <= w then lists + seq(w + 1 - |lists|, _ => []) else lists
  }

  /** The effect of unlinking the k-th node of a bucket on the node at position i. */
  ghost predicate Unlinked(nodes: seq<WeightNode>, nodes': seq<WeightNode>, l: seq<nat>, k: nat, i: nat)
    requires k < |l| && i < |l| && l[k] < |nodes| && l[i] < |nodes| && |nodes'| == |nodes|
  {
    nodes'[l[i]] ==
      if i + 1 == k then nodes[l[i]].(next := nodes[l[k]].next)
      else if i == k + 1 then nodes[l[i]].(prev := nodes[l[k]].prev)
      else nodes[l[i]]
  }

  /** Unlinking the k-th node of a bucket leaves the bucket without it. */
  lemma UnlinkBucket(nodes: seq<WeightNode>, nodes': seq<WeightNode>, head: int, w: nat, l: seq<nat>, k: nat)
    requires IsBucket(nodes, head, w, l) && k < |l| && |nodes'| == |nodes|
    requires forall i :: 0 <= i < |l| && i != k ==> Unlinked(nodes, nodes', l, k, i)
    ensures IsBucket(nodes', if k > 0 then head else nodes[l[k]].next, w, RemoveAt(l, k))
  {
    var r := RemoveAt(l, k);
    forall j | 0 <= j < |r|
      ensures r[j] < |nodes'| && nodes'[r[j]] == WeightNode(w, PrevOf(r, j), NextOf(r, j))
    {
      var i := if j < k then j else j + 1;
      assert r[j] == l[i] && Unlinked(nodes, nodes', l, k, i);
      assert nodes[l[i]] == WeightNode(w, PrevOf(l, i), NextOf(l, i));
      assert nodes[l[k]] == WeightNode(w, PrevOf(l, k), NextOf(l, k));
    }
    RemoveAtDistinct(l, k);
  }

  lemma RemoveAtDistinct(l: seq<nat>, k: nat)
    requires Distinct(l) && k < |l|
    ensures Distinct(RemoveAt(l, k))
  {
    var r := RemoveAt(l, k);
    forall i, j | 0 <= i < j < |r|
      ensures r[i] != r[j]
    {
      assert r[i] == l[if i < k then i else i + 1];
      assert r[j] == l[if j < k then j else j + 1];
    }
  }

  /** Putting a fresh node at the front of a bucket. */
  lemma LinkBucket(nodes: seq<WeightNode>, nodes': seq<WeightNode>, head: int, w: nat, l: seq<nat>, n: nat)
    requires IsBucket(nodes, head, w, l) && |nodes'| == |nodes| && n < |nodes| && n !in l
    requires forall j :: 1 <= j < |l| ==> nodes'[l[j]] == nodes[l[j]]
    requires |l| > 0 ==> nodes'[l[0]] == nodes[l[0]].(prev := n)
    requires nodes'[n] == WeightNode(w, NULL_NODE, head)
    ensures IsBucket(nodes', n, w, [n] + l)
  {
    var r := [n] + l;
    forall j | 0 <= j < |r|
      ensures r[j] < |nodes'| && nodes'[r[j]] == WeightNode(w, PrevOf(r, j), NextOf(r, j))
    {
      if j > 0 {
        assert r[j] == l[j - 1];
      }
    }
  }

  lemma WithoutMembers(l: seq<nat>, n: nat)
    requires Distinct(l)
    ensures forall m :: m in Without(l, n) <==> m in l && m != n
  {
    hide Distinct;
    if n in l {
      forall m
        ensures m in Without(l, n) <==> m in l && m != n
      {
        RemovedMember(l, IndexOf(l, n), m);
      }
    }
  }

  lemma RemovedMember(l: seq<nat>, k: nat, m: nat)
    requires Distinct(l) && k < |l|
    ensures m in RemoveAt(l, k) <==> m in l && m != l[k]
  {
    var r := RemoveAt(l, k);
    if m in l && m != l[k] {
      var i := IndexOf(l, m);
      assert r[if i < k then i else i - 1] == m;
    }
    if m in r {
      var i := IndexOf(r, m);
      assert l[if i < k then i else i + 1] == m;
    }
  }

  /** Buckets, heads and live set fit together; the last bucket is in use. */
  ghost predicate Linked(nodes: seq<WeightNode>, heads: seq<int>, lists: seq<seq<nat>>, live: set<nat>) {
    && |lists| == |heads|
    && (forall w :: 0 <= w < |lists| ==> IsBucket(nodes, heads[w], w, lists[w]))
    && (forall w, n :: 0 <= w < |lists| && n in lists[w] ==> n in live)
    && (forall n :: n in live ==> n < |nodes| && nodes[n].weight < |lists| && n in lists[nodes[n].weight])
  }

  ghost predicate Trimmed(lists: seq<seq<nat>>, live: set<nat>) {
    live != {} ==> lists != [] && lists[|lists| - 1] != []
  }

  /** A bucket survives changes to nodes of other weights. */
  lemma BucketFrame(nodes: seq<WeightNode>, nodes': seq<WeightNode>, head: int, w: nat, v: nat, l: seq<nat>)
    requires IsBucket(nodes, head, v, l) && |nodes'| == |nodes| && v != w
    requires forall m :: 0 <= m < |nodes| && nodes[m].weight != w ==> nodes'[m] == nodes[m]
    ensures IsBucket(nodes', head, v, l)
  {
  }

  /** Replacing the bucket of weight w keeps the whole structure linked. */
  lemma ReplaceBucket(
    nodes: seq<WeightNode>, nodes': seq<WeightNode>, heads: seq<int>, head': int,
    lists: seq<seq<nat>>, l': seq<nat>, live: set<nat>, live': set<nat>, w: nat, n: nat)
    requires Linked(nodes, heads, lists, live) && |nodes'| == |nodes| && w < |lists|
    requires forall m :: 0 <= m < |nodes| && nodes[m].weight != w ==> nodes'[m] == nodes[m]
    requires forall m :: 0 <= m < |nodes| ==> nodes'[m].weight == nodes[m].weight
    requires IsBucket(nodes', head', w, l')
    requires n < |nodes| && nodes[n].weight == w
    requires live' == live + {n} || live' == live - {n}
    requires forall m :: m in l' <==> if m == n then n in live' else m in lists[w]
    ensures Linked(nodes', heads[w := head'], lists[w := l'], live')
  {
    var ls, hs := lists[w := l'], heads[w := head'];
    forall v | 0 <= v < |ls|
      ensures IsBucket(nodes', hs[v], v, ls[v])
    {
      if v != w {
        BucketOf(nodes, heads, lists, live, v);
        BucketFrame(nodes, nodes', heads[v], w, v, lists[v]);
      }
    }
    hide IsBucket;
    forall v, m | 0 <= v < |ls| && m in ls[v]
      ensures m in live'
    {
      BucketOf(nodes, heads, lists, live, v);
    }
  }

  /** The bucket of weight v, and what its members have in common. */
  lemma BucketOf(nodes: seq<WeightNode>, heads: seq<int>, lists: seq<seq<nat>>, live: set<nat>, v: nat)
    requires Linked(nodes, heads, lists, live) && v < |lists|
    ensures |heads| == |lists| && IsBucket(nodes, heads[v], v, lists[v]) && Distinct(lists[v])
    ensures forall m :: m in lists[v] ==> m in live && m < |nodes| && nodes[m].weight == v
  {
    assert IsBucket(nodes, heads[v], v, lists[v]);
    forall m | m in lists[v]
      ensures m in live && m < |nodes| && nodes[m].weight == v
    {
      var k := IndexOf(lists[v], m);
      assert nodes[lists[v][k]].weight == v;
    }
  }

  lemma BucketHead(nodes: seq<WeightNode>, heads: seq<int>, lists: seq<seq<nat>>, live: set<nat>, w: nat)
    requires Linked(nodes, heads, lists, live) && w < |lists|
    ensures |heads| == |lists|
    ensures heads[w] == NULL_NODE <==> lists[w] == []
    ensures lists[w] != [] ==> heads[w] == lists[w][0] && 0 <= heads[w] < |nodes| && nodes[heads[w]].weight == w
    ensures forall n :: n in live ==> n < |nodes|
  {
    assert IsBucket(nodes, heads[w], w, lists[w]);
  }

  lemma HeadLive(nodes: seq<WeightNode>, heads: seq<int>, lists: seq<seq<nat>>, live: set<nat>, w: nat)
    requires Linked(nodes, heads, lists, live) && w < |lists| && lists[w] != []
    ensures lists[w][0] in live
  {
    assert lists[w][0] in lists[w];
  }

  lemma ExtendLinked(nodes: seq<WeightNode>, heads: seq<int>, lists: seq<seq<nat>>, live: set<nat>, w: nat)
    requires Linked(nodes, heads, lists, live)
    ensures |heads| == |lists| && Linked(nodes, ExtendHeads(heads, w), Extend(lists, w), live)
  {
    var ls, hs := Extend(lists, w), ExtendHeads(heads, w);
    forall v | 0 <= v < |ls|
      ensures IsBucket(nodes, hs[v], v, ls[v])
    {
      assert v < |lists| ==> IsBucket(nodes, heads[v], v, lists[v]);
    }
    hide IsBucket;
    forall v, n | 0 <= v < |ls| && n in ls[v]
      ensures n in live
    {
      assert v < |lists| && n in lists[v];
    }
  }

  function ExtendHeads(heads: seq<int>, w: nat): seq<int> {
    if |heads| <= w then heads + seq(w + 1 - |heads|, _ => NULL_NODE) else heads
  }

  /** Linking a fresh node in front of the bucket of its weight. */
  lemma LinkStructure(
    nodes: seq<WeightNode>, nodes': seq<WeightNode>, heads: seq<int>, lists: seq<seq<nat>>, live: set<nat>, n: nat)
    requires Linked(nodes, heads, lists, live) && n < |nodes| && n !in live && nodes[n].weight < |lists|
    requires nodes[n].prev == NULL_NODE && nodes[n].next == NULL_NODE
    requires var h := heads[nodes[n].weight];
      if h == NULL_NODE then nodes' == nodes
      else 0 <= h < |nodes| && nodes' == nodes[h := nodes[h].(prev := n)][n := nodes[n].(next := h)]
    ensures var w := nodes[n].weight;
      Linked(nodes', heads[w := n], lists[w := [n] + lists[w]], live + {n})
  {
    hide Linked, IsBucket;
    var w := nodes[n].weight;
    var l := lists[w];
    BucketHead(nodes, heads, lists, live, w);
    BucketOf(nodes, heads, lists, live, w);
    forall j | 1 <= j < |l|
      ensures nodes'[l[j]] == nodes[l[j]]
    {
      assert l[j] in l && l[j] != l[0];
    }
    LinkBucket(nodes, nodes', heads[w], w, l, n);
    ReplaceBucket(nodes, nodes', heads, n, lists, [n] + l, live, live + {n}, w, n);
  }

  lemma LinkedShape(nodes: seq<WeightNode>, heads: seq<int>, lists: seq<seq<nat>>, live: set<nat>)
    requires Linked(nodes, heads, lists, live)
    ensures |heads| == |lists| && forall m :: m in live ==> m < |nodes| && nodes[m].weight < |lists|
  {
    hide IsBucket;
  }

  lemma LinkTrimmed(lists: seq<seq<nat>>, live: set<nat>, w: nat, n: nat)
    requires Trimmed(lists, live) && (live != {} || lists == [])
    ensures var grown := Extend(lists, w);
      Trimmed(grown[w := [n] + grown[w]], live + {n})
  {
  }

  ghost function WeightsOf(nodes: seq<WeightNode>, live: set<nat>): map<nat, nat>
    requires forall n :: n in live ==> n < |nodes|
  {
    map n | n in live :: nodes[n].weight
  }

  lemma WeightsPlus(nodes: seq<WeightNode>, nodes': seq<WeightNode>, live: set<nat>, n: nat)
    requires n < |nodes| == |nodes'| && (forall m :: m in live ==> m < |nodes|)
    requires forall m :: 0 <= m < |nodes| ==> nodes'[m].weight == nodes[m].weight
    ensures WeightsOf(nodes', live + {n}) == WeightsOf(nodes, live)[n := nodes[n].weight]
    ensures WeightsOf(nodes', live - {n}) == WeightsOf(nodes, live) - {n}
  {
  }

  /** The links around a live node: in range, and the head of its bucket iff it has no predecessor. */
  lemma NodeLinks(nodes: seq<WeightNode>, heads: seq<int>, lists: seq<seq<nat>>, live: set<nat>, n: nat)
    requires Linked(nodes, heads, lists, live) && n in live
    ensures n < |nodes| && nodes[n].weight < |heads| == |lists|
    ensures var w := nodes[n].weight;
      && NULL_NODE <= nodes[n].prev < |nodes| && NULL_NODE <= nodes[n].next < |nodes|
      && n in lists[w]
      && (nodes[n].prev == NULL_NODE <==> heads[w] == n)
      && (nodes[n].prev == nodes[n].next == NULL_NODE <==> lists[w] == [n])
    ensures nodes[n].prev != n && nodes[n].next != n
    ensures nodes[n].prev != NULL_NODE ==> nodes[n].prev != nodes[n].next
  {
    var w := nodes[n].weight;
    var l := lists[w];
    assert IsBucket(nodes, heads[w], w, l);
    var k := IndexOf(l, n);
    assert nodes[l[k]] == WeightNode(w, PrevOf(l, k), NextOf(l, k));
  }

  /** The nodes after n is unlinked from its neighbours. */
  function UnlinkNodes(nodes: seq<WeightNode>, n: nat): (r: seq<WeightNode>)
    requires n < |nodes|
    requires NULL_NODE <= nodes[n].prev < |nodes| && NULL_NODE <= nodes[n].next < |nodes|
    ensures |r| == |nodes|
  {
    var p, x := nodes[n].prev, nodes[n].next;
    var a := if p == NULL_NODE then nodes else nodes[p := nodes[p].(next := x)];
    var b := if x == NULL_NODE then a else a[x := a[x].(prev := p)];
    b[n := b[n].(prev := NULL_NODE, next := NULL_NODE)]
  }

  lemma UnlinkNodesAt(nodes: seq<WeightNode>, n: nat, m: nat)
    requires n < |nodes| && m < |nodes|
    requires NULL_NODE <= nodes[n].prev < |nodes| && NULL_NODE <= nodes[n].next < |nodes|
    requires nodes[n].prev != n && nodes[n].next != n
    requires nodes[n].prev != NULL_NODE ==> nodes[n].prev != nodes[n].next
    ensures UnlinkNodes(nodes, n)[m] ==
      if m == n then WeightNode(nodes[n].weight, NULL_NODE, NULL_NODE)
      else if m == nodes[n].prev then nodes[m].(next := nodes[n].next)
      else if m == nodes[n].next then nodes[m].(prev := nodes[n].prev)
      else nodes[m]
  {
  }

  /** Unlinking n inside its own bucket. */
  lemma UnlinkOne(nodes: seq<WeightNode>, head: int, w: nat, l: seq<nat>, k: nat)
    requires IsBucket(nodes, head, w, l) && k < |l| && l[k] < |nodes|
    requires var n := l[k];
      && nodes[n] == WeightNode(w, PrevOf(l, k), NextOf(l, k))
      && NULL_NODE <= nodes[n].prev < |nodes| && NULL_NODE <= nodes[n].next < |nodes|
      && nodes[n].prev != n && nodes[n].next != n
      && (nodes[n].prev != NULL_NODE ==> nodes[n].prev != nodes[n].next)
    ensures IsBucket(UnlinkNodes(nodes, l[k]), if k > 0 then head else nodes[l[k]].next, w, RemoveAt(l, k))
  {
    hide UnlinkNodes;
    var n := l[k];
    var nodes' := UnlinkNodes(nodes, n);
    forall i | 0 <= i < |l| && i != k
      ensures Unlinked(nodes, nodes', l, k, i)
    {
      UnlinkNodesAt(nodes, n, l[i]);
      assert l[i] == PrevOf(l, k) <==> i + 1 == k;
      assert l[i] == NextOf(l, k) <==> i == k + 1;
    }
    UnlinkBucket(nodes, nodes', head, w, l, k);
  }

  /** Unlinking touches only nodes of the same weight, and no weight. */
  lemma UnlinkFrame(nodes: seq<WeightNode>, heads: seq<int>, lists: seq<seq<nat>>, live: set<nat>, n: nat)
    requires Linked(nodes, heads, lists, live) && n in live
    requires n < |nodes| && nodes[n].weight < |heads| == |lists|
    requires NULL_NODE <= nodes[n].prev < |nodes| && NULL_NODE <= nodes[n].next < |nodes|
    ensures forall m :: 0 <= m < |nodes| ==> UnlinkNodes(nodes, n)[m].weight == nodes[m].weight
    ensures forall m :: 0 <= m < |nodes| && nodes[m].weight != nodes[n].weight ==> UnlinkNodes(nodes, n)[m] == nodes[m]
  {
    NodeLinks(nodes, heads, lists, live, n);
    var w := nodes[n].weight;
    var l := lists[w];
    assert IsBucket(nodes, heads[w], w, l);
    var k := IndexOf(l, n);
    assert nodes[l[k]] == WeightNode(w, PrevOf(l, k), NextOf(l, k));
    assert k > 0 ==> nodes[l[k - 1]].weight == w;
    assert k + 1 < |l| ==> nodes[l[k + 1]].weight == w;
    hide UnlinkNodes, Linked, IsBucket;
    forall m | 0 <= m < |nodes|
      ensures UnlinkNodes(nodes, n)[m].weight == nodes[m].weight
      ensures nodes[m].weight != w ==> UnlinkNodes(nodes, n)[m] == nodes[m]
    {
      UnlinkNodesAt(nodes, n, m);
    }
  }

  lemma UnlinkStructure(nodes: seq<WeightNode>, heads: seq<int>, lists: seq<seq<nat>>, live: set<nat>, n: nat)
    requires Linked(nodes, heads, lists, live) && n in live
    requires n < |nodes| && nodes[n].weight < |heads| == |lists|
    requires NULL_NODE <= nodes[n].prev < |nodes| && NULL_NODE <= nodes[n].next < |nodes|
    ensures var w := nodes[n].weight;
      && Linked(UnlinkNodes(nodes, n), heads[w := if nodes[n].prev == NULL_NODE then nodes[n].next else heads[w]],
                lists[w := Without(lists[w], n)], live - {n})
    ensures forall m :: 0 <= m < |nodes| ==> UnlinkNodes(nodes, n)[m].weight == nodes[m].weight
  {
    var w := nodes[n].weight;
    var l := lists[w];
    NodeLinks(nodes, heads, lists, live, n);
    UnlinkFrame(nodes, heads, lists, live, n);
    assert IsBucket(nodes, heads[w], w, l);
    WithoutMembers(l, n);
    var k := IndexOf(l, n);
    assert nodes[l[k]] == WeightNode(w, PrevOf(l, k), NextOf(l, k));
    hide IsBucket, UnlinkNodes;
    UnlinkOne(nodes, heads[w], w, l, k);
    var head' := if nodes[n].prev == NULL_NODE then nodes[n].next else heads[w];
    ReplaceBucket(nodes, UnlinkNodes(nodes, n), heads, head', lists, Without(l, n), live, live - {n}, w, n);
  }

  /** A live node keeps the vector of heads from running empty; its last head says whether its last bucket is used. */
  lemma LastBucket(nodes: seq<WeightNode>, heads: seq<int>, lists: seq<seq<nat>>, live: set<nat>)
    requires Linked(nodes, heads, lists, live) && live != {}
    ensures |heads| == |lists| > 0
    ensures heads[|heads| - 1] == NULL_NODE <==> lists[|lists| - 1] == []
  {
    var n :| n in live;
    assert IsBucket(nodes, heads[|heads| - 1], |heads| - 1, lists[|heads| - 1]);
  }

  /** Unused lists at the end can be cut off. */
  lemma CutBuckets(nodes: seq<WeightNode>, heads: seq<int>, lists: seq<seq<nat>>, live: set<nat>, k: nat)
    requires Linked(nodes, heads, lists, live) && k <= |heads| == |lists|
    requires forall w :: k <= w < |heads| ==> heads[w] == NULL_NODE
    ensures Linked(nodes, heads[..k], lists[..k], live)
  {
    forall w | k <= w < |lists|
      ensures lists[w] == []
    {
      assert IsBucket(nodes, heads[w], w, lists[w]);
    }
    hide IsBucket;
    forall w, n | 0 <= w < k && n in lists[..k][w]
      ensures n in live
    {
      assert n in lists[w];
    }
    forall n | n in live
      ensures nodes[n].weight < k && n in lists[..k][nodes[n].weight]
    {
      assert n in lists[nodes[n].weight];
    }
  }

  lemma NoBuckets(nodes: seq<WeightNode>, heads: seq<int>, lists: seq<seq<nat>>, live: set<nat>)
    requires Linked(nodes, heads, lists, live)
    requires forall w :: 0 <= w < |heads| ==> heads[w] == NULL_NODE
    ensures live == {} && Trimmed(lists, live)
  {
    CutBuckets(nodes, heads, lists, live, 0);
    assert live == {};
  }

  lemma LiveInRange(nodes: seq<WeightNode>, heads: seq<int>, lists: seq<seq<nat>>, live: set<nat>)
    requires Linked(nodes, heads, lists, live)
    ensures |heads| == |lists|
    ensures forall n :: n in live ==> n < |nodes| && nodes[n].weight < |lists|
  {
  }

  lemma TrimStep(lists: seq<seq<nat>>)
    requires lists != [] && lists[|lists| - 1] == []
    ensures Trim(lists) == Trim(lists[..|lists| - 1])
  {
  }

  lemma TrimmedWhenUsed(lists: seq<seq<nat>>, live: set<nat>)
    requires lists != [] ==> lists[|lists| - 1] != []
    requires live != {} ==> lists != []
    ensures Trimmed(lists, live) && Trim(lists) == lists
  {
  }

  /** Removing a node that is not alone in its bucket leaves the last bucket in use. */
  lemma UnlinkKeepsLast(lists: seq<seq<nat>>, live: set<nat>, w: nat, n: nat)
    requires Trimmed(lists, live) && n in live && w < |lists| && n in lists[w] && lists[w] != [n]
    ensures var r := lists[w := Without(lists[w], n)];
      Trimmed(r, live - {n}) && Trim(r) == r
  {
    var l := lists[w];
    assert |l| == 1 ==> l == [n];
    assert Without(l, n) != [];
  }

  lemma WithoutOnly(n: nat)
    ensures Without([n], n) == []
  {
    var l := [n];
    assert RemoveAt(l, IndexOf(l, n)) == [];
  }

  /** The structure has a second list exactly when some live column has a non-zero weight. */
  lemma SizeTellsWeight(nodes: seq<WeightNode>, heads: seq<int>, lists: seq<seq<nat>>, live: set<nat>)
    requires Linked(nodes, heads, lists, live) && Trimmed(lists, live) && live != {}
    ensures |heads| == |lists|
    ensures forall n :: n in live ==> n < |nodes|
    ensures |heads| > 1 <==> exists n :: n in live && nodes[n].weight > 0
  {
    if |heads| > 1 {
      var w := |heads| - 1;
      assert IsBucket(nodes, heads[w], w, lists[w]);
      var n := lists[w][0];
      assert n in lists[w];
      assert nodes[n].weight == w;
    }
  }

  /** A node outside the structure can change freely. */
  lemma OutsideFrame(nodes: seq<WeightNode>, heads: seq<int>, lists: seq<seq<nat>>, live: set<nat>, n: nat,
    v: WeightNode)
    requires Linked(nodes, heads, lists, live) && n < |nodes| && n !in live
    ensures Linked(nodes[n := v], heads, lists, live)
  {
    forall w | 0 <= w < |lists|
      ensures IsBucket(nodes[n := v], heads[w], w, lists[w])
    {
      assert IsBucket(nodes, heads[w], w, lists[w]);
      forall k | 0 <= k < |lists[w]|
        ensures lists[w][k] != n
      {
        assert lists[w][k] in lists[w];
      }
    }
  }

  /** Without a node in its list, no live column has weight w. */
  lemma EmptyBucket(nodes: seq<WeightNode>, heads: seq<int>, lists: seq<seq<nat>>, live: set<nat>, w: nat)
    requires Linked(nodes, heads, lists, live) && w < |heads| && heads[w] == NULL_NODE
    ensures forall n :: n in live ==> n < |nodes| && nodes[n].weight != w
  {
    assert IsBucket(nodes, heads[w], w, lists[w]);
  }

  ghost function Below(n: nat): (r: set<nat>)
    ensures forall i: nat :: i in r <==> i < n
    ensures |r| == n
  {
    if n == 0 then {} else Below(n - 1) + {n - 1}
  }

  /** The columns of weight w among the first k, the latest first. */
  ghost function Bucketed(weights: seq<nat>, k: nat, w: nat): (r: seq<nat>)
    requires k <= |weights|
  {
    if k == 0 then []
    else if weights[k - 1] == w then [k - 1] + Bucketed(weights, k - 1, w)
    else Bucketed(weights, k - 1, w)
  }

  lemma EmptyStructure(nodes: seq<WeightNode>, size: nat)
    ensures Linked(nodes, seq(size, _ => NULL_NODE), seq(size, _ => []), {})
  {
  }

  ghost predicate AllBucketed(lists: seq<seq<nat>>, weights: seq<nat>, k: nat)
    requires k <= |weights|
  {
    forall w :: 0 <= w < |lists| ==> lists[w] == Bucketed(weights, k, w)
  }

  lemma NoneBucketed(lists: seq<seq<nat>>, weights: seq<nat>)
    requires forall w :: 0 <= w < |lists| ==> lists[w] == []
    ensures AllBucketed(lists, weights, 0)
  {
  }

  lemma PrefixBucketed(lists: seq<seq<nat>>, all: seq<seq<nat>>, weights: seq<nat>)
    requires lists <= all && AllBucketed(all, weights, |weights|)
    ensures AllBucketed(lists, weights, |weights|)
  {
  }

  class WeightData {
    // The head of the list of each weight.
    var weightSets: seq<int>
    var nodes: array<WeightNode>

    ghost var lists: seq<seq<nat>>
    ghost var live: set<nat>

    ghost predicate Valid()
      reads this, nodes
    {
      Linked(nodes[..], weightSets, lists, live) && Trimmed(lists, live)
    }

    /** The map from live column to weight that the structure stands for. */
    ghost function Weights(): map<nat, nat>
      reads this, nodes
      requires Valid()
    {
      WeightsOf(nodes[..], live)
    }

    constructor ()
      ensures Valid() && live == {} && fresh(nodes) && weightSets == []
    {
      weightSets := [];
      nodes := new WeightNode[0];
      lists, live := [], {};
    }

    /** Adds a node that is not in the structure, at the front of the list of its weight. */
    method PushNode(n: nat)
      requires Valid() && n < nodes.Length && n !in live
      requires live != {} || weightSets == []
      requires nodes[n].prev == NULL_NODE && nodes[n].next == NULL_NODE
      modifies this`weightSets, this`lists, this`live, nodes
      ensures Valid() && live == old(live) + {n}
      ensures Weights() == old(Weights())[n := old(nodes[n].weight)]
      ensures forall m :: 0 <= m < nodes.Length ==> nodes[m].weight == old(nodes[m].weight)
      ensures var w := old(nodes[n].weight);
        var grown := Extend(old(lists), w);
        lists == grown[w := [n] + grown[w]]
    {
      hide Linked, Trimmed, Extend;
      var w := nodes[n].weight;
      LinkedShape(nodes[..], weightSets, lists, live);
      LinkTrimmed(lists, live, w, n);
      GrowSets(w);
      LinkFront(n);
    }

    /** Adds heads of empty lists until there is one for weight w. */
    method GrowSets(w: nat)
      requires Linked(nodes[..], weightSets, lists, live)
      modifies this`weightSets, this`lists
      ensures Linked(nodes[..], weightSets, lists, live)
      ensures lists == Extend(old(lists), w) && w < |lists|
    {
      hide Linked;
      ExtendLinked(nodes[..], weightSets, lists, live, w);
      if |weightSets| <= w {
        weightSets := weightSets + seq(w + 1 - |weightSets|, _ => NULL_NODE);
      }
      lists := Extend(lists, w);
    }

    /** Links a node in front of the list of its weight. */
    method LinkFront(n: nat)
      requires Linked(nodes[..], weightSets, lists, live) && n < nodes.Length && n !in live
      requires nodes[n].weight < |lists| && nodes[n].prev == NULL_NODE && nodes[n].next == NULL_NODE
      modifies this`weightSets, this`lists, this`live, nodes
      ensures Linked(nodes[..], weightSets, lists, live) && live == old(live) + {n}
      ensures forall m :: m in live ==> m < nodes.Length
      ensures WeightsOf(nodes[..], live) == old(WeightsOf(nodes[..], live))[n := old(nodes[n].weight)]
      ensures forall m :: 0 <= m < nodes.Length ==> nodes[m].weight == old(nodes[m].weight)
      ensures var w := old(nodes[n].weight); lists == old(lists)[w := [n] + old(lists)[w]]
    {
      hide Linked;
      var w := nodes[n].weight;
      ghost var before, heads := nodes[..], weightSets;
      BucketHead(before, heads, lists, live, w);
      if weightSets[w] != NULL_NODE {
        HeadLive(before, heads, lists, live, w);
        nodes[weightSets[w]] := nodes[weightSets[w]].(prev := n);
        nodes[n] := nodes[n].(next := weightSets[w]);
      }
      weightSets := weightSets[w := n];
      LinkStructure(before, nodes[..], heads, lists, live, n);
      WeightsPlus(before, nodes[..], live, n);
      lists, live := lists[w := [n] + lists[w]], live + {n};
    }

    /** Pops the empty lists at the end; some node must be live. */
    method DropEmptySets()
      requires Linked(nodes[..], weightSets, lists, live) && live != {}
      modifies this`weightSets, this`lists
      ensures Linked(nodes[..], weightSets, lists, live) && Trimmed(lists, live)
      ensures lists == Trim(old(lists))
    {
      hide Linked, Trimmed, Trim;
      LastBucket(nodes[..], weightSets, lists, live);
      while weightSets[|weightSets| - 1] == NULL_NODE
        invariant Linked(nodes[..], weightSets, lists, live)
        invariant |weightSets| == |lists| > 0
        invariant weightSets[|weightSets| - 1] == NULL_NODE <==> lists[|lists| - 1] == []
        invariant Trim(lists) == Trim(old(lists))
        decreases |weightSets|
      {
        CutBuckets(nodes[..], weightSets, lists, live, |weightSets| - 1);
        TrimStep(lists);
        weightSets, lists := weightSets[..|weightSets| - 1], lists[..|lists| - 1];
        LastBucket(nodes[..], weightSets, lists, live);
      }
      TrimmedWhenUsed(lists, live);
    }

    /** Removes a node of the structure, dropping the empty lists at the end.
        Another node must remain: the source pops heads until it finds a used list. */
    method PopNode(n: nat)
      requires Valid() && n in live && live != {n}
      modifies this`weightSets, this`lists, this`live, nodes
      ensures Valid() && live == old(live) - {n}
      ensures n < nodes.Length && Weights() == old(Weights()) - {n}
      ensures forall m :: 0 <= m < nodes.Length ==> nodes[m].weight == old(nodes[m].weight)
      ensures nodes[n].prev == NULL_NODE && nodes[n].next == NULL_NODE
      ensures old(nodes[n].weight) < |old(lists)|
      ensures var w := old(nodes[n].weight);
        lists == Trim(old(lists)[w := Without(old(lists)[w], n)])
    {
      hide Linked, Trimmed, Trim, Without;
      ghost var before := nodes[..];
      LiveInRange(before, weightSets, lists, live);
      NodeLinks(before, weightSets, lists, live, n);
      ghost var w := nodes[n].weight;
      UnlinkStructure(before, weightSets, lists, live, n);
      WeightsPlus(before, UnlinkNodes(before, n), live, n);
      WithoutOnly(n);
      if lists[w] != [n] {
        UnlinkKeepsLast(lists, live, w, n);
      }
      lists, live := lists[w := Without(lists[w], n)], live - {n};
      if nodes[n].prev == NULL_NODE {
        if nodes[n].next == NULL_NODE {
          weightSets := weightSets[nodes[n].weight := NULL_NODE];
          assert UnlinkNodes(before, n) == nodes[..];
          DropEmptySets();
        } else {
          weightSets := weightSets[nodes[n].weight := nodes[n].next];
          nodes[nodes[n].next] := nodes[nodes[n].next].(prev := NULL_NODE);
        }
      } else {
        assert weightSets == weightSets[w := weightSets[w]];
        if nodes[n].next == NULL_NODE {
          nodes[nodes[n].prev] := nodes[nodes[n].prev].(next := NULL_NODE);
        } else {
          nodes[nodes[n].prev] := nodes[nodes[n].prev].(next := nodes[n].next);
          nodes[nodes[n].next] := nodes[nodes[n].next].(prev := nodes[n].prev);
        }
      }
      nodes[n] := nodes[n].(prev := NULL_NODE, next := NULL_NODE);
      assert nodes[..] == UnlinkNodes(before, n);
    }

    /** Moves a node to the list of the next lower weight. */
    method DecrementWeight(n: nat)
      requires Valid() && n in live && live != {n} && Weights()[n] > 0
      modifies this`weightSets, this`lists, this`live, nodes
      ensures Valid() && live == old(live)
      ensures Weights() == old(Weights())[n := old(Weights())[n] - 1]
      ensures n < nodes.Length && nodes[n].weight + 1 == old(nodes[n].weight)
      ensures forall m :: 0 <= m < nodes.Length && m != n ==> nodes[m].weight == old(nodes[m].weight)
    {
      hide Linked, Trimmed, Trim, Without;
      LiveInRange(nodes[..], weightSets, lists, live);
      PopNode(n);
      ghost var before := nodes[..];
      LiveInRange(before, weightSets, lists, live);
      nodes[n] := nodes[n].(weight := nodes[n].weight - 1);
      assert nodes[..] == before[n := nodes[n]];
      OutsideFrame(before, weightSets, lists, live, n, nodes[n]);
      LiveInRange(nodes[..], weightSets, lists, live);
      assert Weights() == old(Weights()) - {n};
      PushNode(n);
    }

    /** Sets the weight of a removed node to zero. */
    method ClearWeight(n: nat)
      requires Valid() && n < nodes.Length && n !in live
      modifies nodes
      ensures Valid() && nodes[n].weight == 0
      ensures forall m :: 0 <= m < nodes.Length && m != n ==> nodes[m] == old(nodes[m])
      ensures nodes[n] == old(nodes[n]).(weight := 0)
    {
      hide Linked;
      OutsideFrame(nodes[..], weightSets, lists, live, n, nodes[n].(weight := 0));
      ghost var before := nodes[..];
      nodes[n] := nodes[n].(weight := 0);
      assert nodes[..] == before[n := nodes[n]];
    }

    /** The first column of the shortest list that is neither list 0 nor empty; None is the source's throw. */
    method GetMinWeightNode() returns (r: Option<nat>)
      requires Valid()
      ensures r.None? ==> forall n :: n in live ==> Weights()[n] == 0
      ensures r.Some? ==> r.value in live && Weights()[r.value] > 0
      ensures r.Some? ==> forall n :: n in live && Weights()[n] > 0 ==> Weights()[n] >= Weights()[r.value]
      ensures r.Some? ==> 0 < Weights()[r.value] < |lists| && lists[Weights()[r.value]] != []
      ensures r.Some? ==> r.value == lists[Weights()[r.value]][0]
    {
      hide Linked, Trimmed;
      LiveInRange(nodes[..], weightSets, lists, live);
      var i := 1;
      while i < |weightSets|
        invariant 1 <= i
        invariant forall n :: n in live ==> Weights()[n] == 0 || Weights()[n] >= i
      {
        if weightSets[i] != NULL_NODE {
          BucketHead(nodes[..], weightSets, lists, live, i);
          HeadLive(nodes[..], weightSets, lists, live, i);
          return Some(weightSets[i]);
        }
        EmptyBucket(nodes[..], weightSets, lists, live, i);
        i := i + 1;
      }
      return None;
    }

    /** The last step of the initialisation: shrinks the vector to the highest used list, if there is one. */
    method ShrinkSets()
      requires Linked(nodes[..], weightSets, lists, live) && |weightSets| == |lists|
      modifies this`weightSets, this`lists
      ensures Valid() && lists <= old(lists)
      ensures live == {} ==> weightSets == old(weightSets)
    {
      hide Linked, Trimmed, Trim;
      var k := |weightSets|;
      while k > 0
        invariant 0 <= k <= |weightSets| == |lists| && lists == old(lists) && weightSets == old(weightSets)
        invariant Linked(nodes[..], weightSets, lists, live)
        invariant forall v :: k <= v < |weightSets| ==> weightSets[v] == NULL_NODE
      {
        if weightSets[k - 1] != NULL_NODE {
          BucketHead(nodes[..], weightSets, lists, live, k - 1);
          HeadLive(nodes[..], weightSets, lists, live, k - 1);
          CutBuckets(nodes[..], weightSets, lists, live, k);
          weightSets, lists := weightSets[..k], lists[..k];
          TrimmedWhenUsed(lists, live);
          return;
        }
        k := k - 1;
      }
      NoBuckets(nodes[..], weightSets, lists, live);
    }

    /** The first part of the initialisation: room for size nodes, and a fixed number of empty lists. */
    method Reset(size: nat)
      modifies this
      ensures Linked(nodes[..], weightSets, lists, live) && live == {}
      ensures |weightSets| == |lists| == INITIAL_SETS && forall w :: 0 <= w < |lists| ==> lists[w] == []
      ensures size <= nodes.Length && (nodes == old(nodes) || fresh(nodes))
    {
      hide Linked;
      if nodes.Length < size {
        nodes := new WeightNode[size](_ => WeightNode(0, NULL_NODE, NULL_NODE));
      }
      weightSets := seq(INITIAL_SETS, _ => NULL_NODE);
      lists, live := seq(INITIAL_SETS, _ => []), {};
      EmptyStructure(nodes[..], INITIAL_SETS);
    }

    /** One step of the initialisation: node i gets its weight and goes to the front of its list. */
    method PlaceNode(i: nat, weights: seq<nat>)
      requires Linked(nodes[..], weightSets, lists, live) && live == Below(i)
      requires |weightSets| == |lists| && i < |weights| <= nodes.Length && weights[i] < |lists|
      requires AllBucketed(lists, weights, i)
      modifies this`weightSets, this`lists, this`live, nodes
      ensures Linked(nodes[..], weightSets, lists, live) && live == Below(i + 1)
      ensures |weightSets| == |lists| == old(|lists|)
      ensures nodes[i].weight == weights[i]
      ensures forall m :: 0 <= m < nodes.Length && m != i ==> nodes[m].weight == old(nodes[m].weight)
      ensures AllBucketed(lists, weights, i + 1)
    {
      hide Linked;
      ghost var before, cleared := nodes[..], WeightNode(weights[i], NULL_NODE, NULL_NODE);
      OutsideFrame(before, weightSets, lists, live, i, cleared);
      nodes[i] := WeightNode(weights[i], NULL_NODE, NULL_NODE);
      assert nodes[..] == before[i := cleared];
      ghost var middle, heads := nodes[..], weightSets;
      var w := nodes[i].weight;
      BucketHead(middle, heads, lists, live, w);
      if lists[w] != [] {
        HeadLive(middle, heads, lists, live, w);
      }
      if weightSets[w] != NULL_NODE {
        nodes[weightSets[w]] := nodes[weightSets[w]].(prev := i);
        nodes[i] := nodes[i].(next := weightSets[w]);
      }
      weightSets := weightSets[w := i];
      LinkStructure(middle, nodes[..], heads, lists, live, i);
      lists, live := lists[w := [i] + lists[w]], live + {i};
    }

    method PlaceNodes(weights: seq<nat>)
      requires Linked(nodes[..], weightSets, lists, live) && live == {}
      requires |weightSets| == |lists| == INITIAL_SETS && AllBucketed(lists, weights, 0)
      requires |weights| <= nodes.Length && forall i :: 0 <= i < |weights| ==> weights[i] < INITIAL_SETS
      modifies this`weightSets, this`lists, this`live, nodes
      ensures Linked(nodes[..], weightSets, lists, live) && |weightSets| == |lists| == INITIAL_SETS
      ensures live == Below(|weights|)
      ensures forall i :: 0 <= i < |weights| ==> nodes[i].weight == weights[i]
      ensures AllBucketed(lists, weights, |weights|)
    {
      hide Linked, AllBucketed;
      var i := 0;
      while i < |weights|
        invariant i <= |weights| <= nodes.Length
        invariant |weightSets| == |lists| == INITIAL_SETS
        invariant live == Below(i)
        invariant Linked(nodes[..], weightSets, lists, live)
        invariant forall j :: 0 <= j < i ==> nodes[j].weight == weights[j]
        invariant AllBucketed(lists, weights, i)
      {
        PlaceNode(i, weights);
        i := i + 1;
      }
    }

    /** Builds the structure from the column weights; every weight must have one of the initial lists. */
    method Init(weights: seq<nat>)
      requires forall i :: 0 <= i < |weights| ==> weights[i] < INITIAL_SETS
      modifies this, nodes
      ensures Valid() && (nodes == old(nodes) || fresh(nodes))
      ensures live == Below(|weights|)
      ensures |weights| <= nodes.Length && forall i :: 0 <= i < |weights| ==> nodes[i].weight == weights[i]
      ensures AllBucketed(lists, weights, |weights|)
      ensures |weights| == 0 ==> |weightSets| == INITIAL_SETS
    {
      hide Linked, Trimmed, Trim, AllBucketed;
      Reset(|weights|);
      NoneBucketed(lists, weights);
      PlaceNodes(weights);
      ghost var all := lists;
      ShrinkSets();
      PrefixBucketed(lists, all, weights);
    }
  }
}
