/** The uthash table: an insertion-order list and bucket chains over the same nodes, with bucket expansion. */
module HashTable {
  import opened Bits
  import opened Bytes
  import opened Handles
  import opened HashLoad
  import opened ListSort
  import MergeSort

  const INITIAL_NUM_BUCKETS: nat := 32
  const INITIAL_NUM_BUCKETS_LOG2: nat := 5

  /** c is linked through hhPrev and hhNext. */
  ghost predicate Chain<K>(c: seq<Handle<K>>)
    reads Nodes(c)`hhPrev, Nodes(c)`hhNext
  {
    Distinct(c)
    && (forall i {:trigger c[i].hhPrev} :: 0 <= i < |c| ==> c[i].hhPrev == At(c, i - 1))
    && (forall i {:trigger c[i].hhNext} :: 0 <= i < |c| ==> c[i].hhNext == At(c, i + 1))
  }

  ghost function At<K>(c: seq<Handle<K>>, i: int): Handle?<K> {
    if 0 <= i < |c| then c[i] else null
  }

  ghost predicate BucketIs<K>(b: Bucket<K>, c: seq<Handle<K>>) {
    b.hhHead == First(c) && b.count == |c|
  }

  function Slot<K>(fcn: K -> nat, h: Handle<K>, n: nat): (b: nat)
    requires n > 0
    ensures b < n
  {
    fcn(h.key) % n
  }

  /** Each item is in the chain of its bucket and in no other. */
  ghost predicate Placed<K>(fcn: K -> nat, chains: seq<seq<Handle<K>>>, items: set<Handle<K>>) {
    |chains| > 0
    && (forall b, h :: 0 <= b < |chains| && h in chains[b] ==> h in items && Slot(fcn, h, |chains|) == b)
    && (forall h :: h in items ==> h in chains[Slot(fcn, h, |chains|)])
  }

  /** The items are placed in the chains, which the bucket records describe. */
  ghost predicate Chained<K>(fcn: K -> nat, bs: seq<Bucket<K>>, chains: seq<seq<Handle<K>>>, items: set<Handle<K>>)
    reads items`hhPrev, items`hhNext, items`hashv
  {
    |bs| == |chains| && Placed(fcn, chains, items)
    && (forall b :: 0 <= b < |chains| ==> BucketIs(bs[b], chains[b]) && Chain(chains[b]))
    && (forall h :: h in items ==> h.hashv == fcn(h.key))
  }

  lemma PlacedAdd<K>(fcn: K -> nat, chains: seq<seq<Handle<K>>>, items: set<Handle<K>>, x: Handle<K>)
    requires Placed(fcn, chains, items) && x !in items
    ensures var bkt := Slot(fcn, x, |chains|);
            x !in chains[bkt] && Placed(fcn, chains[bkt := [x] + chains[bkt]], items + {x})
  {
  }

  lemma PlacedRemove<K>(fcn: K -> nat, chains: seq<seq<Handle<K>>>, items: set<Handle<K>>, x: Handle<K>, c: seq<Handle<K>>)
    requires Placed(fcn, chains, items) && x in items
    requires forall h :: h in c ==> h in chains[Slot(fcn, x, |chains|)] && h != x
    requires forall h :: h in chains[Slot(fcn, x, |chains|)] && h != x ==> h in c
    ensures Placed(fcn, chains[Slot(fcn, x, |chains|) := c], items - {x})
  {
    var cs := chains[Slot(fcn, x, |chains|) := c];
    forall h | h in items - {x} ensures h in cs[Slot(fcn, h, |chains|)] {
      assert h in chains[Slot(fcn, h, |chains|)];
    }
  }

  /** A chain none of whose nodes is relinked stays a chain. */
  twostate lemma ChainKept<K>(c: seq<Handle<K>>)
    requires old(Chain(c))
    requires forall h :: h in c ==> h.hhPrev == old(h.hhPrev)
    requires forall h :: h in c ==> h.hhNext == old(h.hhNext)
    ensures Chain(c)
  {
  }

  /** A list none of whose nodes is relinked stays a list. */
  twostate lemma ListKept<K>(s: seq<Handle<K>>)
    requires old(IsList(HashOrder, s))
    requires forall h :: h in s ==> h.next == old(h.next)
    requires forall h :: h in s ==> h.prev == old(h.prev)
    ensures IsList(HashOrder, s)
  {
  }

  lemma WithoutMembers<T>(s: seq<T>, k: nat)
    requires k < |s| && Distinct(s)
    ensures forall h :: h in Without(s, k) ==> h in s && h != s[k]
    ensures forall h :: h in s && h != s[k] ==> h in Without(s, k)
    ensures Distinct(Without(s, k))
  {
    var o := Without(s, k);
    assert forall i :: 0 <= i < k ==> o[i] == s[i];
    assert forall i {:trigger o[i]} :: k <= i < |o| ==> o[i] == s[i + 1];
    forall h | h in s && h != s[k] ensures h in o {
      var i :| 0 <= i < |s| && s[i] == h;
      assert o[if i < k then i else i - 1] == h;
    }
  }

  // ---------- What expansion does to a chain ----------

  /** The nodes of c whose bucket among m is b, last first: each node is pushed at the front of its new chain. */
  ghost function Rehomed<K>(fcn: K -> nat, c: seq<Handle<K>>, b: nat, m: nat): seq<Handle<K>>
    requires m > 0
  {
    if c == [] then []
    else
      var x := c[|c| - 1];
      if Slot(fcn, x, m) == b then [x] + Rehomed(fcn, c[..|c| - 1], b, m) else Rehomed(fcn, c[..|c| - 1], b, m)
  }

  /** The chains after an expansion. */
  ghost function NewChains<K>(fcn: K -> nat, chains: seq<seq<Handle<K>>>): (r: seq<seq<Handle<K>>>)
    requires chains != []
    ensures |r| == 2 * |chains|
  {
    var n := |chains|;
    seq(2 * n, b requires 0 <= b < 2 * n => Rehomed(fcn, chains[if b < n then b else b - n], b, 2 * n))
  }

  lemma RehomedMembers<K>(fcn: K -> nat, c: seq<Handle<K>>, b: nat, m: nat)
    requires m > 0
    ensures forall h :: h in Rehomed(fcn, c, b, m) ==> h in c && Slot(fcn, h, m) == b
    ensures forall h :: h in c && Slot(fcn, h, m) == b ==> h in Rehomed(fcn, c, b, m)
    ensures Distinct(c) ==> Distinct(Rehomed(fcn, c, b, m))
  {
    if c != [] {
      RehomedMembers(fcn, c[..|c| - 1], b, m);
      var x, r := c[|c| - 1], Rehomed(fcn, c[..|c| - 1], b, m);
      assert forall h :: h in c ==> h == x || h in c[..|c| - 1];
    }
  }

  /** Doubling the bucket count sends a bucket's nodes to the same index or to the index plus n. */
  lemma SlotDoubles(x: nat, n: nat)
    requires n > 0
    ensures x % (2 * n) == x % n || x % (2 * n) == x % n + n
    ensures (x % (2 * n)) % n == x % n
  {
    var q, r := x / n, x % n;
    assert x == q * n + r;
    Halves(q / 2, q % 2, q, n);
    if q % 2 == 0 {
      DivUnique(x, 2 * n, q / 2, r);
      DivUnique(r, n, 0, r);
    } else {
      DivUnique(x, 2 * n, q / 2, n + r);
      DivUnique(n + r, n, 1, r);
    }
  }

  lemma Halves(p: nat, e: nat, q: nat, n: nat)
    requires q == 2 * p + e
    ensures q * n == p * (2 * n) + e * n
  {
    assert (2 * p + e) * n == (2 * p) * n + e * n;
  }

  lemma {:induction false} RehomedLengths<K>(fcn: K -> nat, c: seq<Handle<K>>, i: nat, n: nat)
    requires i < n && forall h :: h in c ==> Slot(fcn, h, n) == i
    ensures |Rehomed(fcn, c, i, 2 * n)| + |Rehomed(fcn, c, i + n, 2 * n)| == |c|
  {
    if c != [] {
      var x := c[|c| - 1];
      assert x in c;
      SlotDoubles(fcn(x.key), n);
      RehomedLengths(fcn, c[..|c| - 1], i, n);
    }
  }

  /** The parts of the first i chains that go to bucket numbers shifted by the offset. */
  ghost function Parts<K>(fcn: K -> nat, chains: seq<seq<Handle<K>>>, i: nat, offset: nat): (r: seq<seq<Handle<K>>>)
    requires i <= |chains|
    ensures |r| == i && forall j :: 0 <= j < i ==> r[j] == Rehomed(fcn, chains[j], j + offset, 2 * |chains|)
  {
    if i == 0 then [] else
      Parts(fcn, chains, i - 1, offset) + [Rehomed(fcn, chains[i - 1], i - 1 + offset, 2 * |chains|)]
  }

  /** The halves of the old chains before i and the old chains after i, in one sequence. */
  ghost function OtherChains<K>(fcn: K -> nat, chains: seq<seq<Handle<K>>>, i: nat): seq<seq<Handle<K>>>
    requires i < |chains|
  {
    Parts(fcn, chains, i, 0) + Parts(fcn, chains, i, |chains|) + chains[i + 1..]
  }

  lemma OtherChainsAre<K>(fcn: K -> nat, chains: seq<seq<Handle<K>>>, i: nat, r: seq<seq<Handle<K>>>)
    requires i < |chains| && r == OtherChains(fcn, chains, i)
    ensures |r| == i + |chains| - 1
    ensures forall k :: 0 <= k < i ==> r[k] == Rehomed(fcn, chains[k], k, 2 * |chains|)
    ensures forall k :: i <= k < 2 * i ==> r[k] == Rehomed(fcn, chains[k - i], k - i + |chains|, 2 * |chains|)
    ensures forall k :: 2 * i <= k < |r| ==> r[k] == chains[k - i + 1]
  {
    hide Rehomed;
    var a, b := Parts(fcn, chains, i, 0), Parts(fcn, chains, i, |chains|);
    hide Parts;
    forall k | 0 <= k < i ensures r[k] == Rehomed(fcn, chains[k], k, 2 * |chains|) {
      assert r[k] == a[k];
    }
    forall k | i <= k < 2 * i ensures r[k] == Rehomed(fcn, chains[k - i], k - i + |chains|, 2 * |chains|) {
      assert r[k] == b[k - i];
    }
    forall k | 2 * i <= k < |r| ensures r[k] == chains[k - i + 1] {
      assert r[k] == chains[i + 1..][k - 2 * i];
    }
  }

  /** The entry is in the chain, and no entry before it has the key. */
  ghost predicate NoneBefore<K>(c: seq<Handle<K>>, key: K, r: Handle<K>) {
    exists k :: 0 <= k < |c| && r == c[k] && forall i :: 0 <= i < k ==> c[i].key != key
  }

  /** The entry HASH_FIND_IN_BKT stops at. */
  function FirstMatch<K>(c: seq<Handle<K>>, key: K): (r: Handle?<K>)
    ensures r == null ==> forall h :: h in c ==> h.key != key
    ensures r != null ==> r in c && r.key == key && NoneBefore(c, key, r)
  {
    if c == [] then null
    else if c[0].key == key then c[0]
    else
      var r := FirstMatch(c[1..], key);
      if r == null then null
      else
        FirstLater(c, key, r);
        r
  }

  /** The first match behind an entry that does not match is the first of all. */
  lemma FirstLater<K>(c: seq<Handle<K>>, key: K, r: Handle?<K>)
    requires c != [] && c[0].key != key && r != null
    requires NoneBefore(c[1..], key, r)
    ensures NoneBefore(c, key, r)
  {
    var k :| 0 <= k < |c[1..]| && r == c[1..][k] && forall i :: 0 <= i < k ==> c[1..][i].key != key;
    assert c[k + 1] == r;
    forall i | 0 <= i < k + 1 ensures c[i].key != key {
      if i > 0 { assert c[i] == c[1..][i - 1]; }
    }
  }

  class HashTable<K(==)> {
    const fcn: K -> nat          // HASH_FCN
    var head: Handle?<K>         // the user's variable; null when there is no table
    var tail: Handle?<K>
    var buckets: array<Bucket<K>>
    var numBuckets: nat
    var log2NumBuckets: nat
    var numItems: nat
    var idealChainMaxlen: nat
    var nonidealItems: nat
    var ineffExpands: nat
    var noexpand: nat

    ghost var order: seq<Handle<K>>         // the items in insertion order
    ghost var chains: seq<seq<Handle<K>>>   // the bucket chains

    ghost predicate Valid()
      reads this, buckets, Nodes(order)
    {
      if head == null then order == []
      else
        head == First(order) && order != [] && tail == order[|order| - 1] && IsList(HashOrder, order)
        && TableOk(Nodes(order)) && numItems == |order|
    }

    /** The part of the invariant about buckets and counters. */
    ghost predicate TableOk(items: set<Handle<K>>)
      reads this`buckets, this`numBuckets, this`log2NumBuckets, this`noexpand, this`numItems, this`chains,
            buckets, items`hhPrev, items`hhNext, items`hashv
    {
      Counters() && Chained(fcn, buckets[..], chains, items) && numItems == Sum(Count(), buckets[..])
    }

    /** The bucket count is a power of two and, unless expansion is given up, the load is bounded. */
    ghost predicate Counters()
      reads this`buckets, this`numBuckets, this`log2NumBuckets, this`noexpand, buckets
    {
      buckets.Length == numBuckets == Pow2(log2NumBuckets)
      && noexpand <= 1 && (noexpand == 0 ==> Loaded(buckets[..]))
    }

    constructor (fcn: K -> nat)
      ensures this.fcn == fcn && Valid() && order == [] && fresh(buckets)
    {
      this.fcn := fcn;
      head, tail, order, chains := null, null, [], [];
      buckets := new Bucket<K>[0];
      numBuckets, log2NumBuckets, numItems := 0, 0, 0;
      idealChainMaxlen, nonidealItems, ineffExpands, noexpand := 0, 0, 0, 0;
    }

    /** HASH_MAKE_TABLE, for the first item. */
    method MakeTable()
      requires head != null
      modifies this`tail, this`buckets, this`numBuckets, this`log2NumBuckets, this`numItems,
               this`idealChainMaxlen, this`nonidealItems, this`ineffExpands, this`noexpand, this`chains
      ensures tail == head && numItems == 0 && noexpand == 0 && ineffExpands == 0 && fresh(buckets)
      ensures buckets.Length == numBuckets == Pow2(log2NumBuckets) == INITIAL_NUM_BUCKETS
      ensures chains == seq(INITIAL_NUM_BUCKETS, _ => [])
      ensures Chained(fcn, buckets[..], chains, {}) && Sum(Count(), buckets[..]) == 0 && Loaded(buckets[..])
    {
      hide Sum, Loaded, Chained;
      tail := head;
      assert Pow2(5) == 32 by { assert Pow2(3) == 8; }
      hide Pow2;
      numBuckets, log2NumBuckets, numItems := INITIAL_NUM_BUCKETS, INITIAL_NUM_BUCKETS_LOG2, 0;
      idealChainMaxlen, nonidealItems, ineffExpands, noexpand := 0, 0, 0, 0;
      buckets := new Bucket<K>[INITIAL_NUM_BUCKETS](_ => Bucket(null, 0, 0));
      chains := seq(INITIAL_NUM_BUCKETS, _ => []);
      FreshLoaded(buckets[..]);
      EmptyChained(buckets[..]);
    }

    lemma EmptyChained(bs: seq<Bucket<K>>)
      requires |bs| == INITIAL_NUM_BUCKETS && forall b :: 0 <= b < |bs| ==> bs[b] == Bucket(null, 0, 0)
      ensures Chained(fcn, bs, seq(INITIAL_NUM_BUCKETS, _ => []), {})
    {
      var cs: seq<seq<Handle<K>>> := seq(INITIAL_NUM_BUCKETS, _ => []);
      assert forall b :: 0 <= b < |cs| ==> cs[b] == [];
    }

    /** HASH_FIND_IN_BKT */
    method FindInBkt(bucket: Bucket<K>, key: K, ghost c: seq<Handle<K>>) returns (out: Handle?<K>)
      requires BucketIs(bucket, c) && Chain(c)
      ensures out == FirstMatch(c, key)
    {
      out := bucket.hhHead;
      ghost var i := 0;
      while out != null
        invariant 0 <= i <= |c| && out == First(c[i..])
        invariant FirstMatch(c[i..], key) == FirstMatch(c, key)
        decreases |c| - i
      {
        if out.key == key { break; }
        assert out == c[i] && c[i..][1..] == c[i + 1..];
        out := out.hhNext;
        i := i + 1;
        assert i < |c| ==> c[i..][0] == c[i];
        assert i == |c| ==> c[i..] == [];
      }
    }

    /** HASH_FIND */
    method Find(key: K) returns (out: Handle?<K>)
      requires Valid()
      ensures out == null ==> forall h :: h in order ==> h.key != key
      ensures out != null ==> out in order && out.key == key
      ensures head != null ==> out == FirstMatch(chains[fcn(key) % |chains|], key)
    {
      if head == null { return null; }
      hide IsList, Loaded, Sum, Pow2, And;
      var hashv := fcn(key);
      MaskIsMod(hashv, log2NumBuckets);
      var bkt := And(hashv, numBuckets - 1);
      ghost var c := chains[bkt];
      assert forall h :: h in order ==> h in Nodes(order);
      assert forall h :: h in order && h.key == key ==> h in c;
      assert Chain(c) && BucketIs(buckets[bkt], c);
      assert forall h :: h in c ==> h in Nodes(order);
      hide Chained;
      out := FindInBkt(buckets[bkt], key, c);
    }

    /** Linking a node at the front of a chain. */
    method PushFront(bs: array<Bucket<K>>, bkt: nat, x: Handle<K>, ghost c: seq<Handle<K>>)
      requires bkt < bs.Length && bs[bkt].hhHead == First(c) && Chain(c) && x !in c
      modifies bs, x`hhPrev, x`hhNext, (if c == [] then {} else {c[0]})`hhPrev
      ensures bs[..] == old(bs[..])[bkt := old(bs[bkt]).(hhHead := x)]
      ensures Chain([x] + c)
    {
      x.hhPrev := null;
      x.hhNext := bs[bkt].hhHead;
      if bs[bkt].hhHead != null {
        bs[bkt].hhHead.hhPrev := x;
      }
      bs[bkt] := bs[bkt].(hhHead := x);
      ghost var r := [x] + c;
      assert forall i {:trigger r[i].hhPrev} :: 0 < i < |r| ==> r[i] == c[i - 1] && r[i].hhPrev == At(r, i - 1);
      assert forall i {:trigger r[i].hhNext} :: 0 < i < |r| ==> r[i] == c[i - 1] && r[i].hhNext == At(r, i + 1);
    }

    /** The linking half of HASH_ADD_TO_BKT. */
    method LinkInBkt(bkt: nat, x: Handle<K>, ghost items: set<Handle<K>>)
      requires Chained(fcn, buckets[..], chains, items) && x !in items
      requires bkt == Slot(fcn, x, |chains|) && x.hashv == fcn(x.key)
      modifies buckets, this`chains, x`hhPrev, x`hhNext, items`hhPrev
      ensures chains == old(chains)[bkt := [x] + old(chains)[bkt]]
      ensures buckets[..] == old(buckets[..])[bkt := Bucket(x, old(buckets[bkt]).count + 1, old(buckets[bkt]).expandMult)]
      ensures Chained(fcn, buckets[..], chains, items + {x})
    {
      ghost var c, kept := chains[bkt], chains[bkt := []];
      OthersApart(bkt, items);
      PlacedAdd(fcn, chains, items, x);
      buckets[bkt] := buckets[bkt].(count := buckets[bkt].count + 1);
      hide Chain, Placed, Slot;
      PushKeeping(bkt, x, c, kept);
      chains := chains[bkt := [x] + c];
      forall b | 0 <= b < |chains| ensures BucketIs(buckets[b], chains[b]) && Chain(chains[b]) {
        if b != bkt { assert chains[b] == kept[b]; }
      }
    }

    /** A bucket after expansion: its record describes its chain, with the multiplier the ideal length gives. */
    ghost predicate Expanded(b: Bucket<K>, c: seq<Handle<K>>, ideal: nat)
      requires ideal > 0
      reads Nodes(c)`hhPrev, Nodes(c)`hhNext
    {
      BucketIs(b, c) && Chain(c) && Multiplied(b, ideal)
    }

    /** One round of the inner loop of HASH_EXPAND_BUCKETS: node x moves to the new bucket bkt. */
    method Rehome(nb: array<Bucket<K>>, bkt: nat, x: Handle<K>, ghost c: seq<Handle<K>>)
      requires idealChainMaxlen > 0 && bkt < nb.Length && Expanded(nb[bkt], c, idealChainMaxlen) && x !in c
      modifies nb, this`nonidealItems, x`hhPrev, x`hhNext, (if c == [] then {} else {c[0]})`hhPrev
      ensures Expanded(nb[bkt], [x] + c, idealChainMaxlen)
      ensures forall j :: 0 <= j < nb.Length && j != bkt ==> nb[j] == old(nb[j])
      ensures nonidealItems == old(nonidealItems) + Excess(idealChainMaxlen)(nb[bkt]) - Excess(idealChainMaxlen)(old(nb[bkt]))
    {
      nb[bkt] := nb[bkt].(count := nb[bkt].count + 1);
      if nb[bkt].count > idealChainMaxlen {
        nonidealItems := nonidealItems + 1;
        nb[bkt] := nb[bkt].(expandMult := nb[bkt].count / idealChainMaxlen);
      }
      PushFront(nb, bkt, x, c);
    }

    /** Rehome, seen together with another new bucket and with nodes that stay where they are. */
    method RehomeKeeping(nb: array<Bucket<K>>, bkt: nat, still: nat, x: Handle<K>, ghost target: seq<Handle<K>>,
                         ghost other: seq<Handle<K>>, ghost rest: seq<Handle<K>>)
      requires idealChainMaxlen > 0 && bkt < nb.Length && still < nb.Length && bkt != still
      requires Expanded(nb[bkt], target, idealChainMaxlen) && Expanded(nb[still], other, idealChainMaxlen)
      requires x !in target && x !in other && x !in rest && (target != [] ==> target[0] !in other)
      modifies nb, this`nonidealItems, x`hhPrev, x`hhNext, (if target == [] then {} else {target[0]})`hhPrev
      ensures Expanded(nb[bkt], [x] + target, idealChainMaxlen) && Expanded(nb[still], other, idealChainMaxlen)
      ensures forall j :: 0 <= j < nb.Length && j != bkt ==> nb[j] == old(nb[j])
      ensures forall h :: h in rest ==> h.hhNext == old(h.hhNext)
      ensures nonidealItems - Excess(idealChainMaxlen)(nb[bkt]) == old(nonidealItems - Excess(idealChainMaxlen)(nb[bkt]))
    {
      hide Excess;
      assert forall h :: h in other ==> h != x && (target != [] ==> h != target[0]);
      Rehome(nb, bkt, x, target);
    }

    /** What the inner loop keeps: a and b are the new chains of buckets i and i + n, c[t..] is still to be moved. */
    ghost predicate Splitting(i: nat, nb: array<Bucket<K>>, c: seq<Handle<K>>, t: nat, a: seq<Handle<K>>, b: seq<Handle<K>>)
      requires i < numBuckets && nb.Length == 2 * numBuckets && idealChainMaxlen > 0
      reads this, nb, Nodes(c)`hhPrev, Nodes(c)`hhNext
    {
      t <= |c| && (forall h :: h in a ==> h in c) && (forall h :: h in b ==> h in c)
      && a == Rehomed(fcn, c[..t], i, 2 * numBuckets) && b == Rehomed(fcn, c[..t], i + numBuckets, 2 * numBuckets)
      && Expanded(nb[i], a, idealChainMaxlen) && Expanded(nb[i + numBuckets], b, idealChainMaxlen)
      && (forall j {:trigger c[j].hhNext} :: t <= j < |c| ==> c[j].hhNext == At(c, j + 1))
    }

    lemma NextNode(i: nat, c: seq<Handle<K>>, t: nat, a: seq<Handle<K>>, b: seq<Handle<K>>)
      requires i < numBuckets && t < |c| && Distinct(c)
      requires forall h :: h in c ==> Slot(fcn, h, numBuckets) == i
      requires a == Rehomed(fcn, c[..t], i, 2 * numBuckets) && b == Rehomed(fcn, c[..t], i + numBuckets, 2 * numBuckets)
      ensures c[t] !in a && c[t] !in b && (a != [] ==> a[0] !in b) && (b != [] ==> b[0] !in a)
      ensures var bkt := Slot(fcn, c[t], 2 * numBuckets);
              (bkt == i || bkt == i + numBuckets)
              && Rehomed(fcn, c[..t + 1], i, 2 * numBuckets) == (if bkt == i then [c[t]] + a else a)
              && Rehomed(fcn, c[..t + 1], i + numBuckets, 2 * numBuckets) == (if bkt == i then b else [c[t]] + b)
    {
      RehomedMembers(fcn, c[..t], i, 2 * numBuckets);
      RehomedMembers(fcn, c[..t], i + numBuckets, 2 * numBuckets);
      assert c[t] in c && c[t] !in c[..t];
      SlotDoubles(fcn(c[t].key), numBuckets);
      assert c[..t + 1][..t] == c[..t];
    }

    /** A node that stays at its index. */
    method MoveLow(i: nat, nb: array<Bucket<K>>, x: Handle<K>, ghost c: seq<Handle<K>>, ghost t: nat,
                  ghost a: seq<Handle<K>>, ghost b: seq<Handle<K>>)
      requires 0 < numBuckets && i < numBuckets && nb.Length == 2 * numBuckets && idealChainMaxlen > 0
      requires forall h :: h in c ==> Slot(fcn, h, numBuckets) == i
      requires Distinct(c) && Splitting(i, nb, c, t, a, b) && t < |c| && x == c[t] && Slot(fcn, x, 2 * numBuckets) == i
      modifies nb, this`nonidealItems, Nodes(c)`hhPrev, Nodes(c)`hhNext
      ensures Splitting(i, nb, c, t + 1, [x] + a, b)
      ensures forall j :: 0 <= j < nb.Length && j != i ==> nb[j] == old(nb[j])
      ensures nonidealItems - Excess(idealChainMaxlen)(nb[i]) == old(nonidealItems - Excess(idealChainMaxlen)(nb[i]))
    {
      hide Rehomed, Excess, Distinct;
      NextNode(i, c, t, a, b);
      Following(c, t);
      RehomeKeeping(nb, i, i + numBuckets, x, a, b, c[t + 1..]);
    }

    /** A node that moves up. */
    method MoveHigh(i: nat, nb: array<Bucket<K>>, x: Handle<K>, ghost c: seq<Handle<K>>, ghost t: nat,
                  ghost a: seq<Handle<K>>, ghost b: seq<Handle<K>>)
      requires 0 < numBuckets && i < numBuckets && nb.Length == 2 * numBuckets && idealChainMaxlen > 0
      requires forall h :: h in c ==> Slot(fcn, h, numBuckets) == i
      requires Distinct(c) && Splitting(i, nb, c, t, a, b) && t < |c| && x == c[t] && Slot(fcn, x, 2 * numBuckets) == i + numBuckets
      modifies nb, this`nonidealItems, Nodes(c)`hhPrev, Nodes(c)`hhNext
      ensures Splitting(i, nb, c, t + 1, a, [x] + b)
      ensures forall j :: 0 <= j < nb.Length && j != i + numBuckets ==> nb[j] == old(nb[j])
      ensures nonidealItems - Excess(idealChainMaxlen)(nb[i + numBuckets]) == old(nonidealItems - Excess(idealChainMaxlen)(nb[i + numBuckets]))
    {
      hide Rehomed, Excess, Distinct;
      NextNode(i, c, t, a, b);
      Following(c, t);
      RehomeKeeping(nb, i + numBuckets, i, x, b, a, c[t + 1..]);
    }

    /** One round of the inner loop: x goes to the bucket with index hashv & (2n - 1). The branches are the two values
        that this index can have; both do the same to their bucket. */
    method SplitStep(i: nat, nb: array<Bucket<K>>, x: Handle<K>, ghost c: seq<Handle<K>>, ghost t: nat,
                     ghost a: seq<Handle<K>>, ghost b: seq<Handle<K>>)
      returns (ghost a': seq<Handle<K>>, ghost b': seq<Handle<K>>)
      requires 0 < numBuckets && i < numBuckets && nb.Length == 2 * numBuckets && idealChainMaxlen > 0
      requires 2 * numBuckets == Pow2(log2NumBuckets + 1)
      requires forall h :: h in c ==> Slot(fcn, h, numBuckets) == i && h.hashv == fcn(h.key)
      requires Distinct(c) && Splitting(i, nb, c, t, a, b) && t < |c| && x == c[t]
      modifies nb, this`nonidealItems, Nodes(c)`hhPrev, Nodes(c)`hhNext
      ensures Splitting(i, nb, c, t + 1, a', b')
      ensures forall j :: 0 <= j < nb.Length && j != i && j != i + numBuckets ==> nb[j] == old(nb[j])
      ensures nonidealItems - Excess(idealChainMaxlen)(nb[i]) - Excess(idealChainMaxlen)(nb[i + numBuckets])
           == old(nonidealItems - Excess(idealChainMaxlen)(nb[i]) - Excess(idealChainMaxlen)(nb[i + numBuckets]))
    {
      assert x in c;
      SlotDoubles(fcn(x.key), numBuckets);
      MaskIsMod(x.hashv, log2NumBuckets + 1);
      hide Pow2, And, Splitting, Excess;
      if And(x.hashv, 2 * numBuckets - 1) == i {
        MoveLow(i, nb, x, c, t, a, b);
        a', b' := [x] + a, b;
      } else {
        MoveHigh(i, nb, x, c, t, a, b);
        a', b' := a, [x] + b;
      }
    }

    lemma Following(c: seq<Handle<K>>, t: nat)
      requires Distinct(c) && t < |c|
      ensures c[t] in c && c[t] !in c[t + 1..]
      ensures forall j :: t < j < |c| ==> c[j] in c[t + 1..]
    {
    }

    /** The inner loop: the nodes of old bucket i move to buckets i and i + n. */
    method SplitBucket(i: nat, nb: array<Bucket<K>>, ghost c: seq<Handle<K>>)
      requires 0 < numBuckets && i < numBuckets && nb.Length == 2 * numBuckets && i < buckets.Length && nb != buckets
      requires 2 * numBuckets == Pow2(log2NumBuckets + 1) && idealChainMaxlen > 0
      requires buckets[i].hhHead == First(c) && Chain(c)
      requires forall h :: h in c ==> Slot(fcn, h, numBuckets) == i && h.hashv == fcn(h.key)
      requires nb[i] == Bucket(null, 0, 0) && nb[i + numBuckets] == Bucket(null, 0, 0)
      modifies nb, this`nonidealItems, Nodes(c)`hhPrev, Nodes(c)`hhNext
      ensures Expanded(nb[i], Rehomed(fcn, c, i, 2 * numBuckets), idealChainMaxlen)
      ensures Expanded(nb[i + numBuckets], Rehomed(fcn, c, i + numBuckets, 2 * numBuckets), idealChainMaxlen)
      ensures forall j :: 0 <= j < nb.Length && j != i && j != i + numBuckets ==> nb[j] == old(nb[j])
      ensures nonidealItems == old(nonidealItems) + Excess(idealChainMaxlen)(nb[i]) + Excess(idealChainMaxlen)(nb[i + numBuckets])
    {
      var thh := buckets[i].hhHead;
      ghost var t := 0;
      ghost var a: seq<Handle<K>>, b: seq<Handle<K>> := [], [];
      NothingRehomed(c, i);
      hide Rehomed, Pow2;
      assert Splitting(i, nb, c, t, a, b);
      while thh != null
        invariant t <= |c| && thh == First(c[t..])
        invariant Splitting(i, nb, c, t, a, b)
        invariant forall j :: 0 <= j < nb.Length && j != i && j != i + numBuckets ==> nb[j] == old(nb[j])
        invariant nonidealItems == old(nonidealItems) + Excess(idealChainMaxlen)(nb[i]) + Excess(idealChainMaxlen)(nb[i + numBuckets])
        decreases |c| - t
      {
        assert thh == c[t] && thh in c;
        assert c[t].hhNext == At(c, t + 1);
        var nxt := thh.hhNext;
        a, b := SplitStep(i, nb, thh, c, t, a, b);
        t := t + 1;
        assert t < |c| ==> c[t..][0] == c[t];
        thh := nxt;
      }
      assert c[..t] == c;
    }

    lemma NothingRehomed(c: seq<Handle<K>>, i: nat)
      requires 0 < numBuckets
      ensures Rehomed(fcn, c[..0], i, 2 * numBuckets) == [] && Rehomed(fcn, c[..0], i + numBuckets, 2 * numBuckets) == []
    {
    }

    /** Bucket b of the new table holds its part of old chain j. */
    ghost predicate SplitHalf(j: nat, b: nat, nb: array<Bucket<K>>, items: set<Handle<K>>)
      requires 0 < numBuckets && nb.Length == 2 * numBuckets && |chains| == numBuckets && idealChainMaxlen > 0
      requires j < numBuckets && b < nb.Length
      reads this`numBuckets, this`chains, this`idealChainMaxlen, nb, items`hhPrev, items`hhNext
    {
      var r := Rehomed(fcn, chains[j], b, 2 * numBuckets);
      Nodes(r) <= items && Expanded(nb[b], r, idealChainMaxlen)
    }

    ghost predicate SplitBoth(j: nat, nb: array<Bucket<K>>, items: set<Handle<K>>)
      requires 0 < numBuckets && nb.Length == 2 * numBuckets && |chains| == numBuckets && idealChainMaxlen > 0
      requires j < numBuckets
      reads this`numBuckets, this`chains, this`idealChainMaxlen, nb, items`hhPrev, items`hhNext
    {
      SplitHalf(j, j, nb, items) && SplitHalf(j, j + numBuckets, nb, items)
    }

    ghost predicate Unsplit(j: nat, nb: array<Bucket<K>>, items: set<Handle<K>>)
      requires nb.Length == 2 * numBuckets && |chains| == buckets.Length == numBuckets && j < numBuckets
      reads this`numBuckets, this`chains, this`buckets, nb, buckets, items`hhPrev, items`hhNext
    {
      Nodes(chains[j]) <= items && BucketIs(buckets[j], chains[j]) && Chain(chains[j])
      && nb[j] == Bucket(null, 0, 0) && nb[j + numBuckets] == Bucket(null, 0, 0)
    }

    /** What the outer loop of HASH_EXPAND_BUCKETS keeps: old buckets before i are split, the others intact. */
    ghost predicate Rehashing(i: nat, nb: array<Bucket<K>>, items: set<Handle<K>>)
      reads this, nb, buckets, items`hhPrev, items`hhNext
    {
      0 < numBuckets && nb.Length == 2 * numBuckets && buckets.Length == numBuckets && |chains| == numBuckets
      && i <= numBuckets && idealChainMaxlen > 0 && Homed(items)
      && (forall j :: 0 <= j < i ==> SplitBoth(j, nb, items))
      && (forall j :: i <= j < numBuckets ==> Unsplit(j, nb, items))
      && Sum(Count(), nb[..]) == Sum(Count(), buckets[..i])
      && nonidealItems == Sum(Excess(idealChainMaxlen), nb[..])
    }

    /** The nodes of the old chains are the items, each in its own bucket. */
    ghost predicate Homed(items: set<Handle<K>>)
      requires 0 < numBuckets == |chains|
      reads this`numBuckets, this`chains
    {
      (forall b, h :: 0 <= b < |chains| && h in chains[b] ==> h in items && Slot(fcn, h, numBuckets) == b)
      && (forall h :: h in items ==> h in chains[Slot(fcn, h, numBuckets)])
    }

    lemma SplitSums(i: nat, before: seq<Bucket<K>>, after: seq<Bucket<K>>)
      requires |before| == |after| == 2 * numBuckets && i < numBuckets && idealChainMaxlen > 0
      requires before[i] == Bucket(null, 0, 0) && before[i + numBuckets] == Bucket(null, 0, 0)
      requires forall j :: 0 <= j < |before| && j != i && j != i + numBuckets ==> after[j] == before[j]
      ensures Sum(Count(), after) == Sum(Count(), before) + after[i].count + after[i + numBuckets].count
      ensures var ex := Excess(idealChainMaxlen);
              Sum(ex, after) == Sum(ex, before) + ex(after[i]) + ex(after[i + numBuckets])
    {
      var n := numBuckets;
      var mid := before[i := after[i]];
      assert after == mid[i + n := after[i + n]];
      SumUpdate(Count(), before, i, after[i]);
      SumUpdate(Count(), mid, i + n, after[i + n]);
      SumUpdate(Excess(idealChainMaxlen), before, i, after[i]);
      SumUpdate(Excess(idealChainMaxlen), mid, i + n, after[i + n]);
    }

    lemma ChainsApart(i: nat, items: set<Handle<K>>)
      requires 0 < numBuckets == |chains| && i < numBuckets && Homed(items)
      ensures forall j :: 0 <= j < numBuckets && j != i ==>
        Nodes(chains[j]) !! Nodes(chains[i])
        && Nodes(Rehomed(fcn, chains[j], j, 2 * numBuckets)) !! Nodes(chains[i])
        && Nodes(Rehomed(fcn, chains[j], j + numBuckets, 2 * numBuckets)) !! Nodes(chains[i])
      ensures Nodes(Rehomed(fcn, chains[i], i, 2 * numBuckets)) <= items
      ensures Nodes(Rehomed(fcn, chains[i], i + numBuckets, 2 * numBuckets)) <= items
    {
      hide Rehomed;
      assert forall h :: h in Nodes(chains[i]) ==> Slot(fcn, h, numBuckets) == i && h in items;
      RehomedMembers(fcn, chains[i], i, 2 * numBuckets);
      RehomedMembers(fcn, chains[i], i + numBuckets, 2 * numBuckets);
      forall j | 0 <= j < numBuckets && j != i
        ensures Nodes(chains[j]) !! Nodes(chains[i])
        ensures Nodes(Rehomed(fcn, chains[j], j, 2 * numBuckets)) !! Nodes(chains[i])
        ensures Nodes(Rehomed(fcn, chains[j], j + numBuckets, 2 * numBuckets)) !! Nodes(chains[i])
      {
        assert forall h :: h in Nodes(chains[j]) ==> Slot(fcn, h, numBuckets) == j;
        RehomedMembers(fcn, chains[j], j, 2 * numBuckets);
        RehomedMembers(fcn, chains[j], j + numBuckets, 2 * numBuckets);
      }
    }

    /** Splitting a bucket does not disturb chains that share no node with it. */
    method SplitKeeping(i: nat, nb: array<Bucket<K>>, ghost c: seq<Handle<K>>, ghost kept: seq<seq<Handle<K>>>)
      requires 0 < numBuckets && i < numBuckets && nb.Length == 2 * numBuckets && i < buckets.Length && nb != buckets
      requires 2 * numBuckets == Pow2(log2NumBuckets + 1) && idealChainMaxlen > 0
      requires buckets[i].hhHead == First(c) && Chain(c)
      requires forall h :: h in c ==> Slot(fcn, h, numBuckets) == i && h.hashv == fcn(h.key)
      requires nb[i] == Bucket(null, 0, 0) && nb[i + numBuckets] == Bucket(null, 0, 0)
      requires forall k :: 0 <= k < |kept| ==> Chain(kept[k]) && Nodes(kept[k]) !! Nodes(c)
      modifies nb, this`nonidealItems, Nodes(c)`hhPrev, Nodes(c)`hhNext
      ensures forall k :: 0 <= k < |kept| ==> Chain(kept[k])
      ensures Expanded(nb[i], Rehomed(fcn, c, i, 2 * numBuckets), idealChainMaxlen)
      ensures Expanded(nb[i + numBuckets], Rehomed(fcn, c, i + numBuckets, 2 * numBuckets), idealChainMaxlen)
      ensures forall j :: 0 <= j < nb.Length && j != i && j != i + numBuckets ==> nb[j] == old(nb[j])
      ensures nonidealItems == old(nonidealItems) + Excess(idealChainMaxlen)(nb[i]) + Excess(idealChainMaxlen)(nb[i + numBuckets])
    {
      hide Rehomed, Pow2, Expanded;
      SplitBucket(i, nb, c);
      forall k | 0 <= k < |kept| ensures Chain(kept[k]) {
        assert forall h :: h in kept[k] ==> h in Nodes(kept[k]);
        ChainKept(kept[k]);
      }
    }

    lemma OthersChained(i: nat, nb: array<Bucket<K>>, items: set<Handle<K>>, kept: seq<seq<Handle<K>>>)
      requires Rehashing(i, nb, items) && i < numBuckets && kept == OtherChains(fcn, chains, i)
      ensures forall k :: 0 <= k < |kept| ==> Chain(kept[k]) && Nodes(kept[k]) !! Nodes(chains[i])
    {
      hide Rehomed, Sum, Homed, Multiplied, Chain;
      OtherChainsAre(fcn, chains, i, kept);
      ChainsApart(i, items);
      hide OtherChains;
      forall k | 0 <= k < |kept| ensures Chain(kept[k]) && Nodes(kept[k]) !! Nodes(chains[i]) {
        if k < i {
          assert SplitBoth(k, nb, items);
        } else if k < 2 * i {
          assert SplitBoth(k - i, nb, items);
        } else {
          assert Unsplit(k - i + 1, nb, items);
        }
      }
    }

    /** One round of the outer loop. */
    method ExpandStep(i: nat, nb: array<Bucket<K>>, ghost items: set<Handle<K>>)
      requires Rehashing(i, nb, items) && i < numBuckets && nb != buckets
      requires 2 * numBuckets == Pow2(log2NumBuckets + 1)
      requires forall h :: h in items ==> h.hashv == fcn(h.key)
      modifies nb, this`nonidealItems, items`hhPrev, items`hhNext
      ensures Rehashing(i + 1, nb, items)
    {
      hide Rehomed, Pow2, Sum, Multiplied, Chain, Homed, Excess, OtherChains;
      ghost var before, n, c, kept := nb[..], numBuckets, chains[i], OtherChains(fcn, chains, i);
      ChainsApart(i, items);
      OthersChained(i, nb, items, kept);
      SlotsOfChain(i, items);
      assert Unsplit(i, nb, items);
      SplitKeeping(i, nb, c, kept);
      OtherChainsAre(fcn, chains, i, kept);
      RehomedLengths(fcn, c, i, n);
      SplitSums(i, before, nb[..]);
      assert buckets[..i + 1] == buckets[..i] + [buckets[i]];
      SumExtend(Count(), buckets[..i], buckets[i]);
      assert Sum(Count(), nb[..]) == Sum(Count(), buckets[..i + 1]);
      assert SplitBoth(i, nb, items);
      forall j | 0 <= j < i ensures SplitBoth(j, nb, items) {
        assert old(SplitBoth(j, nb, items));
        assert Chain(kept[j]) && Chain(kept[i + j]);
      }
      forall j | i < j < n ensures Unsplit(j, nb, items) {
        assert old(Unsplit(j, nb, items)) && Chain(kept[i + j - 1]);
      }
      hide SplitBoth, Unsplit;
    }

    lemma SlotsOfChain(i: nat, items: set<Handle<K>>)
      requires 0 < numBuckets == |chains| && i < numBuckets && Homed(items)
      ensures forall h :: h in chains[i] ==> h in items && Slot(fcn, h, numBuckets) == i
    {
    }

    lemma StartRehashing(nb: array<Bucket<K>>, items: set<Handle<K>>)
      requires Chained(fcn, buckets[..], chains, items) && buckets.Length == numBuckets && idealChainMaxlen > 0
      requires nb.Length == 2 * numBuckets && nonidealItems == 0
      requires forall j :: 0 <= j < nb.Length ==> nb[j] == Bucket(null, 0, 0)
      ensures Rehashing(0, nb, items)
    {
      hide Chain;
      SumConst(Count(), nb[..], 0);
      SumConst(Excess(idealChainMaxlen), nb[..], 0);
      assert buckets[..0] == [];
      forall j | 0 <= j < numBuckets ensures Unsplit(j, nb, items) {
        assert BucketIs(buckets[..][j], chains[j]);
      }
    }

    /** The chains and bucket records of the new table. */
    lemma EndRehashing(nb: array<Bucket<K>>, items: set<Handle<K>>)
      requires Rehashing(numBuckets, nb, items) && forall h :: h in items ==> h.hashv == fcn(h.key)
      ensures Chained(fcn, nb[..], NewChains(fcn, chains), items)
      ensures forall j :: 0 <= j < |nb[..]| ==> Multiplied(nb[..][j], idealChainMaxlen)
      ensures Sum(Count(), nb[..]) == Sum(Count(), buckets[..])
      ensures nonidealItems == Sum(Excess(idealChainMaxlen), nb[..])
    {
      hide Rehomed, Chain, Sum, Homed, Multiplied;
      var n, cs := numBuckets, NewChains(fcn, chains);
      assert buckets[..n] == buckets[..];
      forall b | 0 <= b < 2 * n
        ensures BucketIs(nb[b], cs[b]) && Chain(cs[b]) && Multiplied(nb[b], idealChainMaxlen)
        ensures forall h :: h in cs[b] ==> h in items && Slot(fcn, h, 2 * n) == b
      {
        var j := if b < n then b else b - n;
        assert SplitBoth(j, nb, items) && SplitHalf(j, b, nb, items);
        RehomedMembers(fcn, chains[j], b, 2 * n);
        assert forall h :: h in cs[b] ==> h in Nodes(cs[b]);
      }
      forall h | h in items ensures h in cs[Slot(fcn, h, 2 * n)] {
        ItemHomed(items, h);
        SlotDoubles(fcn(h.key), n);
        RehomedMembers(fcn, chains[Slot(fcn, h, n)], Slot(fcn, h, 2 * n), 2 * n);
      }
    }

    lemma ItemHomed(items: set<Handle<K>>, h: Handle<K>)
      requires 0 < numBuckets == |chains| && Homed(items) && h in items
      ensures h in chains[Slot(fcn, h, numBuckets)]
    {
    }

    /** The outer loop of HASH_EXPAND_BUCKETS. */
    method RehashAll(nb: array<Bucket<K>>, ghost items: set<Handle<K>>)
      requires Rehashing(0, nb, items) && nb != buckets
      requires 2 * numBuckets == Pow2(log2NumBuckets + 1)
      requires forall h :: h in items ==> h.hashv == fcn(h.key)
      modifies nb, this`nonidealItems, items`hhPrev, items`hhNext
      ensures Chained(fcn, nb[..], NewChains(fcn, chains), items)
      ensures forall j :: 0 <= j < |nb[..]| ==> Multiplied(nb[..][j], idealChainMaxlen)
      ensures Sum(Count(), nb[..]) == Sum(Count(), buckets[..])
      ensures nonidealItems == Sum(Excess(idealChainMaxlen), nb[..])
    {
      hide Rehashing, Sum, Excess, Multiplied, Chained, NewChains, Pow2;
      for i := 0 to numBuckets
        invariant Rehashing(i, nb, items)
      {
        ExpandStep(i, nb, items);
      }
      EndRehashing(nb, items);
    }

    /** The ideal chain length: the least integer that is at least the load after doubling. */
    ghost predicate IsIdeal(ideal: nat, n: nat)
      reads this`numItems
    {
      1 <= ideal <= 10 && ideal * n >= numItems && forall d: nat :: d * n >= numItems ==> d >= ideal
    }

    /** Lines 673-681 of HASH_EXPAND_BUCKETS: the empty new buckets and the ideal chain length. */
    method EmptyBuckets(ghost items: set<Handle<K>>) returns (newBuckets: array<Bucket<K>>)
      requires Chained(fcn, buckets[..], chains, items) && buckets.Length == numBuckets == Pow2(log2NumBuckets)
      requires 1 <= numItems <= 19 * numBuckets + 1
      modifies this`idealChainMaxlen, this`nonidealItems
      ensures fresh(newBuckets) && newBuckets.Length == 2 * numBuckets == Pow2(log2NumBuckets + 1)
      ensures Rehashing(0, newBuckets, items) && IsIdeal(idealChainMaxlen, 2 * numBuckets)
    {
      ChainCount(items);
      newBuckets := new Bucket<K>[2 * numBuckets](_ => Bucket(null, 0, 0));
      assert newBuckets.Length == Pow2(log2NumBuckets + 1);
      ShiftMaskIsCeil(numItems, log2NumBuckets + 1);
      hide Pow2, Shr, And, Rehashing, Chain, BucketIs, Placed;
      idealChainMaxlen := Shr(numItems, log2NumBuckets + 1) + (if And(numItems, numBuckets * 2 - 1) != 0 then 1 else 0);
      IdealRange(numItems, numBuckets, idealChainMaxlen);
      nonidealItems := 0;
      StartRehashing(newBuckets, items);
    }

    /** Lines 673-701 of HASH_EXPAND_BUCKETS: the filled new buckets. */
    method FillNewBuckets(ghost items: set<Handle<K>>) returns (newBuckets: array<Bucket<K>>)
      requires Chained(fcn, buckets[..], chains, items) && buckets.Length == numBuckets == Pow2(log2NumBuckets)
      requires numItems == Sum(Count(), buckets[..]) && 1 <= numItems <= 19 * numBuckets + 1
      modifies this`idealChainMaxlen, this`nonidealItems, items`hhPrev, items`hhNext
      ensures fresh(newBuckets) && newBuckets.Length == 2 * numBuckets && chains != []
      ensures Chained(fcn, newBuckets[..], NewChains(fcn, chains), items)
      ensures numItems == Sum(Count(), newBuckets[..])
      ensures IsIdeal(idealChainMaxlen, 2 * numBuckets)
      ensures forall b :: 0 <= b < |newBuckets[..]| ==> Multiplied(newBuckets[..][b], idealChainMaxlen)
      ensures nonidealItems == Sum(Excess(idealChainMaxlen), newBuckets[..])
    {
      hide Pow2, Sum, Excess, Multiplied, NewChains, Rehashing;
      ItemsHashed(items);
      newBuckets := EmptyBuckets(items);
      hide Chained;
      RehashAll(newBuckets, items);
    }

    /** HASH_EXPAND_BUCKETS */
    method ExpandBuckets(ghost items: set<Handle<K>>)
      requires Chained(fcn, buckets[..], chains, items) && buckets.Length == numBuckets == Pow2(log2NumBuckets)
      requires noexpand == 0 && numItems == Sum(Count(), buckets[..]) && 1 <= numItems <= 19 * numBuckets + 1
      modifies this`buckets, this`numBuckets, this`log2NumBuckets, this`idealChainMaxlen, this`nonidealItems,
               this`ineffExpands, this`noexpand, this`chains, items`hhPrev, items`hhNext
      ensures fresh(buckets) && log2NumBuckets == old(log2NumBuckets) + 1
      ensures buckets.Length == numBuckets == 2 * old(numBuckets) == Pow2(log2NumBuckets)
      ensures chains == NewChains(fcn, old(chains)) && Chained(fcn, buckets[..], chains, items)
      ensures numItems == Sum(Count(), buckets[..]) && Loaded(buckets[..])
      ensures IsIdeal(idealChainMaxlen, numBuckets)
      ensures forall b :: 0 <= b < |buckets[..]| ==> Multiplied(buckets[..][b], idealChainMaxlen)
      ensures nonidealItems == Sum(Excess(idealChainMaxlen), buckets[..])
      ensures ineffExpands == (if nonidealItems > numItems / 2 then old(ineffExpands) + 1 else 0)
      ensures noexpand == if ineffExpands > 1 then 1 else 0
    {
      hide Shr, Sum, Excess, Multiplied, NewChains, Loaded, Chained;
      var newBuckets := FillNewBuckets(items);
      ExpansionLoaded(newBuckets[..], idealChainMaxlen);
      assert Pow2(log2NumBuckets + 1) == 2 * numBuckets;
      hide Pow2;
      chains := NewChains(fcn, chains);
      numBuckets := numBuckets * 2;
      log2NumBuckets := log2NumBuckets + 1;
      buckets := newBuckets;
      HalfShift(numItems);
      ineffExpands := if nonidealItems > Shr(numItems, 1) then ineffExpands + 1 else 0;
      if ineffExpands > 1 {
        noexpand := 1;
      }
    }

    lemma HalfShift(n: nat)
      ensures Shr(n, 1) == n / 2
    {
    }

    lemma ItemsHashed(items: set<Handle<K>>)
      requires Chained(fcn, buckets[..], chains, items)
      ensures forall h :: h in items ==> h.hashv == fcn(h.key)
    {
    }

    /** Whether adding to bucket bkt triggers an expansion. */
    ghost predicate Triggers(bkt: nat)
      requires bkt < buckets.Length
      reads this`buckets, this`noexpand, buckets
    {
      noexpand != 1 && buckets[bkt].count + 1 >= 10 * (buckets[bkt].expandMult + 1)
    }

    /** HASH_ADD_TO_BKT */
    method AddToBkt(bkt: nat, x: Handle<K>, ghost items: set<Handle<K>>)
      requires Chained(fcn, buckets[..], chains, items) && x !in items && Counters()
      requires numItems == Sum(Count(), buckets[..]) + 1
      requires bkt == Slot(fcn, x, |chains|) && x.hashv == fcn(x.key)
      modifies this`buckets, this`numBuckets, this`log2NumBuckets, this`idealChainMaxlen, this`nonidealItems,
               this`ineffExpands, this`noexpand, this`chains, buckets, x`hhPrev, x`hhNext, items`hhPrev, items`hhNext
      ensures buckets == old(buckets) || fresh(buckets)
      ensures Chained(fcn, buckets[..], chains, items + {x}) && Counters()
      ensures numItems == Sum(Count(), buckets[..])
      ensures var linked := old(chains)[bkt := [x] + old(chains)[bkt]];
              chains == if old(Triggers(bkt)) then NewChains(fcn, linked) else linked
      ensures old(Triggers(bkt)) ==> IsIdeal(idealChainMaxlen, numBuckets)
    {
      hide Sum, Loaded, NewChains, Pow2;
      ghost var before := buckets[..];
      if noexpand == 0 { LoadBound(before); }
      LinkInBkt(bkt, x, items);
      SumUpdate(Count(), before, bkt, buckets[bkt]);
      CountsBelowSlots(before);
      hide Chained;
      if buckets[bkt].count >= (buckets[bkt].expandMult + 1) * CAPACITY_THRESH && noexpand != 1 {
        ExpandBuckets(items + {x});
      } else if noexpand == 0 {
        ChangeKeepsLoaded(before, bkt, buckets[bkt]);
      }
    }

    /** The insertion-order half of HASH_ADD_KEYPTR, for a table that exists. */
    method LinkLast(x: Handle<K>)
      requires Valid() && head != null && x !in order
      modifies this`tail, x`next, x`prev, tail`next
      ensures IsList(HashOrder, order + [x]) && tail == x && TableOk(Nodes(order))
    {
      hide Chain, BucketIs, Loaded, Sum, Pow2;
      x.next := null;
      tail.next := x;
      x.prev := tail;
      tail := x;
      ghost var o := order + [x];
      assert forall i :: 0 <= i < |order| ==> o[i] == order[i];
    }

    /** The insertion-order half of HASH_ADD_KEYPTR, for the first item. */
    method LinkFirst(x: Handle<K>)
      requires Valid() && head == null
      modifies this, x`next, x`prev
      ensures IsList(HashOrder, order + [x]) && head == tail == x && TableOk(Nodes(order)) && fresh(buckets)
      ensures order == [] && numItems == 0
    {
      hide Chain, BucketIs, Loaded, Sum, Pow2;
      x.next := null;
      head := x;
      x.prev := null;
      MakeTable();
      assert order + [x] == [x];
    }

    /** The bucket half of HASH_ADD_KEYPTR. */
    method AddHashed(x: Handle<K>)
      requires TableOk(Nodes(order)) && x !in order
      modifies this`buckets, this`numBuckets, this`log2NumBuckets, this`idealChainMaxlen, this`nonidealItems,
               this`ineffExpands, this`noexpand, this`chains, this`numItems, this`order,
               buckets, x`hashv, x`hhPrev, x`hhNext, Nodes(order)`hhPrev, Nodes(order)`hhNext
      ensures buckets == old(buckets) || fresh(buckets)
      ensures order == old(order) + [x] && numItems == old(numItems) + 1 && TableOk(Nodes(order))
      ensures |old(chains)| == old(buckets.Length) > 0
      ensures var bkt := Slot(fcn, x, |old(chains)|);
              var linked := old(chains)[bkt := [x] + old(chains)[bkt]];
              chains == if old(Triggers(bkt)) then NewChains(fcn, linked) else linked
    {
      hide Sum, Loaded, NewChains, Pow2, Chain, BucketIs, Chained, And;
      numItems := numItems + 1;
      x.hashv := fcn(x.key);
      MaskIsMod(x.hashv, log2NumBuckets);
      var bkt := And(x.hashv, numBuckets - 1);
      ChainCount(Nodes(order));
      AddToBkt(bkt, x, Nodes(order));
      order := order + [x];
      assert Nodes(order) == old(Nodes(order)) + {x};
    }

    /** HASH_ADD_KEYPTR */
    method Add(x: Handle<K>)
      requires Valid() && x !in order
      modifies this, buckets, x, Nodes(order)
      ensures Valid() && order == old(order) + [x] && (buckets == old(buckets) || fresh(buckets))
      ensures old(order) != [] ==> |old(chains)| == old(buckets.Length) > 0
      ensures old(order) != [] ==>
                var bkt := Slot(fcn, x, |old(chains)|);
                var linked := old(chains)[bkt := [x] + old(chains)[bkt]];
                chains == if old(Triggers(bkt)) then NewChains(fcn, linked) else linked
    {
      hide NewChains, TableOk, IsList;
      if head == null {
        LinkFirst(x);
      } else {
        LinkLast(x);
      }
      label linked:
      AddHashed(x);
      ListKept@linked(order);
    }

    lemma ChainCount(items: set<Handle<K>>)
      requires Chained(fcn, buckets[..], chains, items)
      ensures |chains| == buckets.Length > 0
    {
    }

    /** Every node of s but the k-th is linked to its neighbours, and the k-th is passed over. */
    ghost predicate PassedOver(s: seq<Handle<K>>, k: nat)
      requires k < |s|
      reads Nodes(s)`next, Nodes(s)`prev
    {
      (forall i {:trigger s[i].next} :: 0 <= i < |s| && i != k ==> s[i].next == At(s, if i == k - 1 then k + 1 else i + 1))
      && (forall i {:trigger s[i].prev} :: 0 <= i < |s| && i != k ==> s[i].prev == At(s, if i == k + 1 then k - 1 else i - 1))
    }

    lemma ListWithout(s: seq<Handle<K>>, k: nat)
      requires k < |s| && Distinct(s) && PassedOver(s, k)
      ensures IsList(HashOrder, Without(s, k))
    {
      WithoutAt(s, k);
      WithoutMembers(s, k);
      ghost var o := Without(s, k);
      hide Without, Distinct;
      forall i | 0 <= i < |o| - 1 ensures o[i].next == o[i + 1] {
        assert o[i] == s[if i < k then i else i + 1];
      }
      forall i | 0 < i < |o| ensures o[i].prev == o[i - 1] {
        assert o[i] == s[if i < k then i else i + 1];
      }
      if o != [] {
        assert o[0] == s[if 0 < k then 0 else 1] && o[|o| - 1] == s[if |o| - 1 < k then |o| - 1 else |o|];
      }
    }

    /** The statements that unlink x from the insertion order. */
    method PassOver(x: Handle<K>, ghost k: nat)
      requires |order| > 1 && head == order[0] && tail == order[|order| - 1] && Distinct(order)
      requires k < |order| && order[k] == x && x.prev == At(order, k - 1) && x.next == At(order, k + 1)
      modifies this`head, this`tail, Opt(x.prev)`next, Opt(x.next)`prev
      ensures k > 0 ==> order[k - 1].next == At(order, k + 1)
      ensures k + 1 < |order| ==> order[k + 1].prev == At(order, k - 1)
      ensures forall i {:trigger order[i].next} :: 0 <= i < |order| && i != k - 1 && i != k ==> order[i].next == old(order[i].next)
      ensures forall i {:trigger order[i].prev} :: 0 <= i < |order| && i != k + 1 && i != k ==> order[i].prev == old(order[i].prev)
      ensures head == (if k == 0 then order[1] else order[0])
      ensures tail == (if k == |order| - 1 then order[k - 1] else order[|order| - 1])
    {
      assert k < |order| - 1 ==> x != order[|order| - 1];
      if x == tail {
        tail := x.prev;
      }
      if x.prev != null {
        x.prev.next := x.next;
      } else {
        head := x.next;
      }
      if x.next != null {
        x.next.prev := x.prev;
      }
    }

    function Opt(h: Handle?<K>): set<Handle<K>> { if h == null then {} else {h} }

    lemma LinksOf(s: seq<Handle<K>>)
      requires IsList(HashOrder, s)
      ensures Distinct(s)
      ensures forall i {:trigger s[i].next} :: 0 <= i < |s| ==> s[i].next == At(s, i + 1)
      ensures forall i {:trigger s[i].prev} :: 0 <= i < |s| ==> s[i].prev == At(s, i - 1)
    {
    }

    /** The insertion-order half of HASH_DELETE, when x is not the only item. */
    method UnlinkOrder(x: Handle<K>, ghost k: nat)
      requires |order| > 1 && head == First(order) && tail == order[|order| - 1] && IsList(HashOrder, order)
      requires k < |order| && order[k] == x
      modifies this`head, this`tail, Nodes(order)`next, Nodes(order)`prev
      ensures var o := Without(order, k);
              IsList(HashOrder, o) && head == First(o) && tail == o[|o| - 1]
    {
      LinksOf(order);
      hide IsList, Distinct;
      assert order[k].prev == At(order, k - 1) && order[k].next == At(order, k + 1);
      assert x.prev == null || x.prev in Nodes(order);
      assert x.next == null || x.next in Nodes(order);
      PassOver(x, k);
      forall i {:trigger order[i].next} | 0 <= i < |order| && i != k
        ensures order[i].next == At(order, if i == k - 1 then k + 1 else i + 1)
      {
        assert old(order[i].next) == At(order, i + 1);
      }
      forall i {:trigger order[i].prev} | 0 <= i < |order| && i != k
        ensures order[i].prev == At(order, if i == k + 1 then k - 1 else i - 1)
      {
        assert old(order[i].prev) == At(order, i - 1);
      }
      ListWithout(order, k);
      WithoutAt(order, k);
    }

    /** HASH_DEL_IN_BKT */
    method DelInBkt(bkt: nat, x: Handle<K>, ghost c: seq<Handle<K>>, ghost k: nat)
      requires bkt < buckets.Length && BucketIs(buckets[bkt], c) && Chain(c) && k < |c| && c[k] == x
      modifies buckets, Nodes(c)`hhPrev, Nodes(c)`hhNext
      ensures buckets[..] == old(buckets[..])[bkt := buckets[bkt]] && buckets[bkt].expandMult == old(buckets[bkt]).expandMult
      ensures BucketIs(buckets[bkt], Without(c, k)) && Chain(Without(c, k))
    {
      buckets[bkt] := buckets[bkt].(count := buckets[bkt].count - 1);
      if buckets[bkt].hhHead == x {
        buckets[bkt] := buckets[bkt].(hhHead := x.hhNext);
      }
      if x.hhPrev != null {
        x.hhPrev.hhNext := x.hhNext;
      }
      if x.hhNext != null {
        x.hhNext.hhPrev := x.hhPrev;
      }
      ghost var o := Without(c, k);
      assert forall i :: 0 <= i < k ==> o[i] == c[i];
      assert forall i :: k <= i < |o| ==> o[i] == c[i + 1];
    }

    /** HASH_DEL_IN_BKT does not disturb chains that share no node with the bucket's. */
    method DelKeeping(bkt: nat, x: Handle<K>, ghost c: seq<Handle<K>>, ghost k: nat, ghost kept: seq<seq<Handle<K>>>)
      requires bkt < buckets.Length && BucketIs(buckets[bkt], c) && Chain(c) && k < |c| && c[k] == x
      requires forall b :: 0 <= b < |kept| ==> Chain(kept[b]) && Nodes(kept[b]) !! Nodes(c)
      modifies buckets, Nodes(c)`hhPrev, Nodes(c)`hhNext
      ensures buckets[..] == old(buckets[..])[bkt := buckets[bkt]] && buckets[bkt].expandMult == old(buckets[bkt]).expandMult
      ensures BucketIs(buckets[bkt], Without(c, k)) && Chain(Without(c, k)) && buckets[bkt].count == old(buckets[bkt]).count - 1
      ensures forall b :: 0 <= b < |kept| ==> Chain(kept[b])
    {
      DelInBkt(bkt, x, c, k);
      forall b | 0 <= b < |kept| ensures Chain(kept[b]) {
        assert forall h :: h in kept[b] ==> h in Nodes(kept[b]);
        ChainKept(kept[b]);
      }
    }

    /** PushFront on the table's own buckets, in the same way. */
    method PushKeeping(bkt: nat, x: Handle<K>, ghost c: seq<Handle<K>>, ghost kept: seq<seq<Handle<K>>>)
      requires bkt < buckets.Length && buckets[bkt].hhHead == First(c) && Chain(c) && x !in c
      requires forall b :: 0 <= b < |kept| ==> Chain(kept[b]) && Nodes(kept[b]) !! Nodes(c) + {x}
      modifies buckets, x`hhPrev, x`hhNext, (if c == [] then {} else {c[0]})`hhPrev
      ensures buckets[..] == old(buckets[..])[bkt := old(buckets[bkt]).(hhHead := x)]
      ensures Chain([x] + c)
      ensures forall b :: 0 <= b < |kept| ==> Chain(kept[b])
    {
      PushFront(buckets, bkt, x, c);
      forall b | 0 <= b < |kept| ensures Chain(kept[b]) {
        assert forall h :: h in kept[b] ==> h in Nodes(kept[b]);
        ChainKept(kept[b]);
      }
    }

    /** The chains of a table share no nodes. */
    lemma OthersApart(bkt: nat, items: set<Handle<K>>)
      requires Chained(fcn, buckets[..], chains, items) && bkt < |chains|
      ensures Chain(chains[bkt]) && BucketIs(buckets[bkt], chains[bkt]) && Nodes(chains[bkt]) <= items
      ensures var kept := chains[bkt := []];
              forall b :: 0 <= b < |kept| ==>
                Chain(kept[b]) && Nodes(kept[b]) !! Nodes(chains[bkt]) && Nodes(kept[b]) <= items
    {
      var kept := chains[bkt := []];
      forall b | 0 <= b < |kept|
        ensures Chain(kept[b]) && Nodes(kept[b]) !! Nodes(chains[bkt]) && Nodes(kept[b]) <= items
      {
        if b != bkt {
          assert kept[b] == chains[b] && Chain(chains[b]);
          assert forall h :: h in Nodes(chains[b]) ==> Slot(fcn, h, |chains|) == b;
        }
      }
      assert BucketIs(buckets[..][bkt], chains[bkt]);
    }

    /** HASH_DEL_IN_BKT, seen from the whole table. */
    method UnlinkInBkt(bkt: nat, x: Handle<K>, ghost items: set<Handle<K>>) returns (ghost j: nat)
      requires Chained(fcn, buckets[..], chains, items) && x in items && bkt == Slot(fcn, x, |chains|)
      modifies buckets, this`chains, items`hhPrev, items`hhNext
      ensures j < |old(chains)[bkt]| && old(chains)[bkt][j] == x
      ensures chains == old(chains)[bkt := Without(old(chains)[bkt], j)]
      ensures buckets[..] == old(buckets[..])[bkt := buckets[bkt]]
      ensures buckets[bkt].expandMult == old(buckets[bkt].expandMult) && buckets[bkt].count == old(buckets[bkt].count) - 1
      ensures Chained(fcn, buckets[..], chains, items - {x})
    {
      ghost var c, kept := chains[bkt], chains[bkt := []];
      OthersApart(bkt, items);
      assert x in c;
      j :| 0 <= j < |c| && c[j] == x;
      WithoutMembers(c, j);
      PlacedRemove(fcn, chains, items, x, Without(c, j));
      hide Chain, Without, First, Placed, Slot;
      DelKeeping(bkt, x, c, j, kept);
      chains := chains[bkt := Without(c, j)];
      forall b | 0 <= b < |chains| ensures BucketIs(buckets[b], chains[b]) && Chain(chains[b]) {
        if b != bkt { assert chains[b] == kept[b]; }
      }
    }

    ghost method SetOrder(t: seq<Handle<K>>)
      requires head != null && head == First(t) && t != [] && tail == t[|t| - 1] && IsList(HashOrder, t)
      requires TableOk(Nodes(t)) && numItems == |t|
      modifies this`order
      ensures Valid() && order == t && head != null
    {
      order := t;
    }

    /** The bucket half of HASH_DELETE. */
    method DeleteHashed(x: Handle<K>, ghost k: nat) returns (ghost j: nat)
      requires TableOk(Nodes(order)) && k < |order| && order[k] == x && Distinct(order)
      modifies this`chains, this`numItems, buckets, Nodes(order)`hhPrev, Nodes(order)`hhNext
      ensures TableOk(Nodes(Without(order, k))) && numItems == old(numItems) - 1
      ensures |old(chains)| > 0
      ensures var bkt := Slot(fcn, x, |old(chains)|);
              j < |old(chains)[bkt]| && old(chains)[bkt][j] == x
              && chains == old(chains)[bkt := Without(old(chains)[bkt], j)]
    {
      hide Sum, Loaded, Pow2, Chain, BucketIs;
      ItemHash(x);
      MaskIsMod(x.hashv, log2NumBuckets);
      var bkt := And(x.hashv, numBuckets - 1);
      hide And;
      ghost var before := buckets[..];
      CountsBelowSlots(before);
      ChainCount(Nodes(order));
      WithoutMembers(order, k);
      hide Chained;
      j := UnlinkInBkt(bkt, x, Nodes(order));
      SumUpdate(Count(), before, bkt, buckets[bkt]);
      CountsBelowSlots(buckets[..]);
      if noexpand == 0 { ChangeKeepsLoaded(before, bkt, buckets[bkt]); }
      numItems := numItems - 1;
      assert Nodes(Without(order, k)) == Nodes(order) - {x};
    }

    lemma ItemHash(x: Handle<K>)
      requires Chained(fcn, buckets[..], chains, Nodes(order)) && x in order
      ensures x.hashv == fcn(x.key) && x in Nodes(order)
    {
    }

    twostate lemma TableKept()
      requires old(TableOk(Nodes(order)))
      requires unchanged(`buckets, `numBuckets, `log2NumBuckets, `noexpand, `numItems, `chains, `order) && unchanged(buckets)
      requires forall h :: h in order ==> h.hhPrev == old(h.hhPrev)
      requires forall h :: h in order ==> h.hhNext == old(h.hhNext)
      requires forall h :: h in order ==> h.hashv == old(h.hashv)
      ensures TableOk(Nodes(order))
    {
    }

    lemma OnlyItem(x: Handle<K>, k: nat)
      requires IsList(HashOrder, order) && k < |order| && order[k] == x
      ensures Distinct(order)
      ensures x.prev == null && x.next == null <==> |order| == 1
    {
      assert x.prev == At(order, k - 1) && x.next == At(order, k + 1);
    }

    /** The insertion-order half of HASH_DELETE leaves the bucket half alone. */
    method UnlinkKeeping(x: Handle<K>, ghost k: nat)
      requires Valid() && |order| > 1 && k < |order| && order[k] == x
      modifies this`head, this`tail, Nodes(order)`next, Nodes(order)`prev
      ensures var o := Without(order, k);
              IsList(HashOrder, o) && head == First(o) && tail == o[|o| - 1]
      ensures TableOk(Nodes(order)) && Distinct(order)
    {
      OnlyItem(x, k);
      hide IsList, TableOk, Distinct;
      UnlinkOrder(x, k);
      TableKept();
    }

    /** The else branch of HASH_DELETE. */
    method DeleteLinked(x: Handle<K>, ghost k: nat)
      requires Valid() && |order| > 1 && k < |order| && order[k] == x
      modifies this`head, this`tail, this`chains, this`numItems, this`order, buckets, Nodes(order)
      ensures Valid() && head != null && order == Without(old(order), k)
    {
      hide IsList, TableOk, Distinct;
      UnlinkKeeping(x, k);
      label unlinked:
      ghost var _ := DeleteHashed(x, k);
      ListKept@unlinked(Without(order, k));
      SetOrder(Without(order, k));
    }

    /** HASH_DELETE */
    method Delete(x: Handle<K>, ghost k: nat)
      requires Valid() && k < |order| && order[k] == x
      modifies this, buckets, Nodes(order)
      ensures Valid() && order == Without(old(order), k) && buckets == old(buckets)
    {
      OnlyItem(x, k);
      if x.prev == null && x.next == null {
        head := null;
        order := [];
      } else {
        DeleteLinked(x, k);
      }
    }

    /** A bucket count that is a power of two, at most 19 items per bucket, and no chain longer than the threshold of
        its bucket. */
    ghost predicate WithinLoad()
      reads this, buckets
    {
      numBuckets == Pow2(log2NumBuckets) == |chains| == buckets.Length && numItems == |order| <= 19 * numBuckets
      && forall b :: 0 <= b < numBuckets ==> |chains[b]| <= CAPACITY_THRESH * (buckets[b].expandMult + 1)
    }

    /** The load bound of a table that has not given up expanding: at most 19 items per bucket, and no chain
        longer than the threshold of its bucket. */
    lemma LoadIsBounded()
      requires Valid() && head != null && noexpand == 0
      ensures WithinLoad()
    {
      hide Chain, IsList;
      LoadBound(buckets[..]);
      assert forall b :: 0 <= b < numBuckets ==> BucketIs(buckets[..][b], chains[b]);
    }

    /** HASH_ITER */
    method Iterate() returns (visited: seq<Handle<K>>)
      requires Valid()
      ensures visited == order
    {
      hide TableOk;
      visited := [];
      var el := head;
      while el != null
        invariant |visited| <= |order| && visited == order[..|visited|] && el == At(order, |visited|)
        decreases |order| - |visited|
      {
        assert el == order[|visited|];
        visited := visited + [el];
        el := el.next;
      }
    }

    /** HASH_ITER with HASH_DEL of each element: the next element is read before the deletion. */
    method DeleteAll()
      requires Valid()
      modifies this, buckets, Nodes(order)
      ensures Valid() && order == [] && head == null
    {
      ghost var all := order;
      var el := head;
      while el != null
        invariant Valid() && el == head && buckets == old(buckets) && Nodes(order) <= Nodes(all)
        decreases |order|
      {
        var tmp := el.next;
        assert tmp == At(order, 1) && Without(order, 0) == order[1..];
        Delete(el, 0);
        el := tmp;
      }
    }

    /** HASH_SRT, for a table with items; the insertion order is recorded last. */
    method SortItems(cmp: (Handle<K>, Handle<K>) -> int, ghost t: seq<Handle<K>>)
      requires Valid() && head != null && t == MergeSort.Sort(Le(cmp), order, 1)
      modifies this`head, this`tail, Nodes(order)`next, Nodes(order)`prev
      ensures Nodes(t) == Nodes(order) && IsList(HashOrder, t) && head == First(t) && tail == t[|t| - 1] && head != null
      ensures TableOk(Nodes(t)) && |t| == |order|
      ensures MergeSort.TotalPreorder(Le(cmp), order) ==> MergeSort.IsStableSort(Le(cmp), order, t)
    {
      hide IsList, TableOk, MergeSort.IsStableSort, MergeSort.TotalPreorder, MergeSort.Sort;
      SortLength(cmp, order);
      head, tail := SortList(HashOrder, head, cmp, order);
      TableKept();
    }

    /** HASH_SRT */
    method Sort(cmp: (Handle<K>, Handle<K>) -> int)
      requires Valid()
      modifies this`head, this`tail, this`order, Nodes(order)`next, Nodes(order)`prev
      ensures Valid() && order == MergeSort.Sort(Le(cmp), old(order), 1)
      ensures MergeSort.TotalPreorder(Le(cmp), old(order)) ==> MergeSort.IsStableSort(Le(cmp), old(order), order)
      ensures SortedBy(cmp, old(order), order)
    {
      SortLength(cmp, order);
      SortSorts(cmp, order);
      SortNothing(cmp);
      hide MergeSort.IsStableSort, MergeSort.TotalPreorder, TableOk, IsList, MergeSort.Sort, SortedBy;
      if head != null {
        ghost var t := MergeSort.Sort(Le(cmp), order, 1);
        SortItems(cmp, t);
        SetOrder(t);
      }
    }

    lemma SortLength(cmp: (Handle<K>, Handle<K>) -> int, s: seq<Handle<K>>)
      ensures |MergeSort.Sort(Le(cmp), s, 1)| == |s|
    {
    }

    lemma SortNothing(cmp: (Handle<K>, Handle<K>) -> int)
      ensures MergeSort.IsStableSort<Handle<K>>(Le(cmp), [], [])
    {
    }
  }

  // ---------- Whole runs ----------

  /** HASH_FIND followed by HASH_ADD when nothing is found, as in core/event.c; HASH_ADD alone, as for headers; and
      HASH_FIND followed by HASH_DEL when something is found. */
  datatype Op<K> = Put(key: K) | Append(key: K) | Remove(key: K)

  function KeysOf<K>(s: seq<Handle<K>>): (r: seq<K>)
    ensures |r| == |s| && forall i :: 0 <= i < |s| ==> r[i] == s[i].key
  {
    seq(|s|, i requires 0 <= i < |s| => s[i].key)
  }

  /** What an operation may do to an insertion-ordered multiset of keys: with duplicates a removal takes any one. */
  ghost predicate Does<K>(op: Op<K>, keys: seq<K>, after: seq<K>) {
    match op
    case Put(k) => after == if k in keys then keys else keys + [k]
    case Append(k) => after == keys + [k]
    case Remove(k) =>
      if k in keys then exists j :: 0 <= j < |keys| && keys[j] == k && after == Without(keys, j) else after == keys
  }

  /** Without duplicates there is one thing it may do. */
  function Apply<K(==)>(op: Op<K>, keys: seq<K>): seq<K> {
    match op
    case Put(k) => if k in keys then keys else keys + [k]
    case Append(k) => keys + [k]
    case Remove(k) => Dropped(keys, k)
  }

  function Dropped<K(==)>(keys: seq<K>, k: K): seq<K> {
    if keys == [] then [] else if keys[0] == k then keys[1..] else [keys[0]] + Dropped(keys[1..], k)
  }

  function ApplyAll<K(==)>(ops: seq<Op<K>>, keys: seq<K>): seq<K> {
    if ops == [] then keys else ApplyAll(ops[1..], Apply(ops[0], keys))
  }

  lemma {:induction false} DroppedIsWithout<K>(keys: seq<K>, j: nat)
    requires j < |keys| && Distinct(keys)
    ensures Dropped(keys, keys[j]) == Without(keys, j)
  {
    if j > 0 {
      DroppedIsWithout(keys[1..], j - 1);
      assert keys[0] != keys[j] && keys[1..][j - 1] == keys[j];
    }
  }

  lemma {:induction false} DroppedAbsent<K>(keys: seq<K>, k: K)
    requires k !in keys
    ensures Dropped(keys, k) == keys
  {
    if keys != [] { DroppedAbsent(keys[1..], k); }
  }

  lemma DoesApply<K>(op: Op<K>, keys: seq<K>, after: seq<K>)
    requires Does(op, keys, after) && Distinct(keys) && !op.Append?
    ensures after == Apply(op, keys) && Distinct(after)
  {
    if op.Remove? {
      if op.key in keys {
        var j :| 0 <= j < |keys| && keys[j] == op.key && after == Without(keys, j);
        DroppedIsWithout(keys, j);
        WithoutMembers(keys, j);
      } else {
        DroppedAbsent(keys, op.key);
      }
    }
  }

  lemma KeysAdded<K>(s: seq<Handle<K>>, h: Handle<K>)
    ensures KeysOf(s + [h]) == KeysOf(s) + [h.key]
  {
  }

  lemma KeysWithout<K>(s: seq<Handle<K>>, j: nat)
    requires j < |s|
    ensures KeysOf(Without(s, j)) == Without(KeysOf(s), j)
  {
  }

  lemma NodesWithout<K>(s: seq<Handle<K>>, j: nat)
    requires j < |s|
    ensures Nodes(Without(s, j)) <= Nodes(s)
  {
  }

  /** HASH_ADD of a new item. */
  method AddKey<K>(t: HashTable<K>, key: K)
    requires t.Valid()
    modifies t, t.buckets, Nodes(t.order)
    ensures t.Valid() && KeysOf(t.order) == KeysOf(old(t.order)) + [key]
    ensures fresh(Nodes(t.order) - old(Nodes(t.order))) && (t.buckets == old(t.buckets) || fresh(t.buckets))
  {
    hide HashTable.Valid;
    ghost var s := t.order;
    var h := new Handle(key);
    t.Add(h);
    KeysAdded(s, h);
  }

  /** One operation. */
  method Step<K>(t: HashTable<K>, op: Op<K>)
    requires t.Valid()
    modifies t, t.buckets, Nodes(t.order)
    ensures t.Valid() && Does(op, KeysOf(old(t.order)), KeysOf(t.order))
    ensures fresh(Nodes(t.order) - old(Nodes(t.order))) && (t.buckets == old(t.buckets) || fresh(t.buckets))
  {
    hide HashTable.Valid;
    ghost var s, keys := t.order, KeysOf(t.order);
    if op.Append? {
      AddKey(t, op.key);
      return;
    }
    var found := t.Find(op.key);
    if found == null {
      if op.Put? { AddKey(t, op.key); }
      return;
    }
    ghost var j :| 0 <= j < |s| && s[j] == found;
    assert keys[j] == op.key;
    if op.Remove? {
      KeysWithout(s, j);
      NodesWithout(s, j);
      hide Without;
      t.Delete(found, j);
    }
  }

  /** A run of the operations: the keys before and after each. */
  ghost predicate IsRun<K>(ops: seq<Op<K>>, states: seq<seq<K>>) {
    |states| == |ops| + 1 && states[0] == [] && forall i :: 0 <= i < |ops| ==> Does(ops[i], states[i], states[i + 1])
  }

  lemma IsRunMore<K>(ops: seq<Op<K>>, states: seq<seq<K>>, op: Op<K>, after: seq<K>)
    requires IsRun(ops, states) && Does(op, states[|ops|], after)
    ensures IsRun(ops + [op], states + [after])
  {
    hide Does;
    forall i | 0 <= i < |ops + [op]| ensures Does((ops + [op])[i], (states + [after])[i], (states + [after])[i + 1]) {
      if i < |ops| { assert Does(ops[i], states[i], states[i + 1]); }
    }
  }

  /** No duplicates are added. */
  ghost predicate Single<K>(ops: seq<Op<K>>) {
    forall i :: 0 <= i < |ops| ==> !ops[i].Append?
  }

  /** After i operations. */
  ghost predicate Reached<K>(ops: seq<Op<K>>, i: nat, states: seq<seq<K>>, keys: seq<K>)
    requires i <= |ops|
  {
    IsRun(ops[..i], states) && keys == states[i]
    && (Single(ops) ==> Distinct(keys) && ApplyAll(ops[i..], keys) == ApplyAll(ops, []))
  }

  lemma ReachedMore<K>(ops: seq<Op<K>>, i: nat, states: seq<seq<K>>, keys: seq<K>, after: seq<K>)
    requires i < |ops| && Reached(ops, i, states, keys) && Does(ops[i], keys, after)
    ensures Reached(ops, i + 1, states + [after], after)
  {
    hide Does, IsRun;
    IsRunMore(ops[..i], states, ops[i], after);
    assert ops[..i + 1] == ops[..i] + [ops[i]] && ops[i..][1..] == ops[i + 1..];
    IsRunLength(ops[..i], states);
    if Single(ops) { DoesApply(ops[i], keys, after); }
  }

  lemma IsRunLength<K>(ops: seq<Op<K>>, states: seq<seq<K>>)
    requires IsRun(ops, states)
    ensures |states| == |ops| + 1
  {
  }

  /** Every run from a fresh table is a run of the insertion-ordered multiset of keys, which is a fixed function of the
      operations when no duplicates are added; and it ends in a table that keeps the integrity conditions and, unless
      expansion was given up, the load bound. */
  method Run<K>(fcn: K -> nat, ops: seq<Op<K>>) returns (t: HashTable<K>, ghost states: seq<seq<K>>)
    ensures t.Valid() && IsRun(ops, states) && KeysOf(t.order) == states[|ops|]
    ensures Single(ops) ==> KeysOf(t.order) == ApplyAll(ops, [])
    ensures t.head != null && t.noexpand == 0 ==> t.WithinLoad()
  {
    t := new HashTable(fcn);
    states := [[]];
    var i := 0;
    StartRun<K>();
    assert Reached(ops, 0, states, KeysOf(t.order)) by { assert ops[..0] == [] && ops[0..] == ops; }
    hide Does, HashTable.Valid, HashTable.WithinLoad, Reached;
    while i < |ops|
      invariant 0 <= i <= |ops| && fresh(t) && fresh(t.buckets) && fresh(Nodes(t.order)) && t.Valid()
      invariant Reached(ops, i, states, KeysOf(t.order))
    {
      ghost var keys := KeysOf(t.order);
      Step(t, ops[i]);
      ReachedMore(ops, i, states, keys, KeysOf(t.order));
      states := states + [KeysOf(t.order)];
      i := i + 1;
    }
    ReachedEnd(ops, states, KeysOf(t.order));
    if t.head != null && t.noexpand == 0 { t.LoadIsBounded(); }
  }

  lemma ReachedEnd<K>(ops: seq<Op<K>>, states: seq<seq<K>>, keys: seq<K>)
    requires Reached(ops, |ops|, states, keys)
    ensures IsRun(ops, states) && keys == states[|ops|] && (Single(ops) ==> keys == ApplyAll(ops, []))
  {
    assert ops[..|ops|] == ops;
  }

  lemma StartRun<K>()
    ensures IsRun<K>([], [[]])
  {
  }
}
