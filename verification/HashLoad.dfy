/** The bucket counters of a uthash table and the bound they give on its load. */
module HashLoad {
  import opened Bits
  import opened Bytes
  import opened Handles

  const CAPACITY_THRESH: nat := 10

  /** UT_hash_bucket */
  datatype Bucket<K(==)> = Bucket(hhHead: Handle?<K>, count: nat, expandMult: nat)

  ghost function Sum<T>(f: T -> int, s: seq<T>): int {
    if s == [] then 0 else f(s[0]) + Sum(f, s[1..])
  }

  lemma {:induction false} SumUpdate<T>(f: T -> int, s: seq<T>, i: nat, x: T)
    requires i < |s|
    ensures Sum(f, s[i := x]) == Sum(f, s) - f(s[i]) + f(x)
  {
    if i == 0 {
      assert s[0 := x][1..] == s[1..];
    } else {
      assert s[i := x][1..] == s[1..][i - 1 := x];
      SumUpdate(f, s[1..], i - 1, x);
    }
  }

  lemma {:induction false} SumExtend<T>(f: T -> int, s: seq<T>, x: T)
    ensures Sum(f, s + [x]) == Sum(f, s) + f(x)
  {
    if s != [] {
      assert (s + [x])[1..] == s[1..] + [x];
      SumExtend(f, s[1..], x);
    } else {
      assert s + [x] == [x];
    }
  }

  lemma {:induction false} SumConst<T>(f: T -> int, s: seq<T>, c: int)
    requires forall i :: 0 <= i < |s| ==> f(s[i]) == c
    ensures Sum(f, s) == c * |s|
  {
    if s != [] { SumConst(f, s[1..], c); }
  }

  ghost function Count<K>(): Bucket<K> -> int { (b: Bucket<K>) => b.count }

  /** The number of items a bucket accounts for: its count, or the largest count that does not trigger expansion. */
  ghost function Slots<K>(): Bucket<K> -> int {
    (b: Bucket<K>) => Max(b.count, CAPACITY_THRESH * (b.expandMult + 1) - 1)
  }

  /** The items beyond the ideal chain length. */
  ghost function Excess<K>(ideal: nat): Bucket<K> -> int { (b: Bucket<K>) => Max(b.count - ideal, 0) }

  /** The counters of a table that may still expand. */
  ghost predicate Loaded<K>(bs: seq<Bucket<K>>) {
    Sum(Slots(), bs) <= 19 * |bs|
    && forall i :: 0 <= i < |bs| ==> bs[i].count <= CAPACITY_THRESH * (bs[i].expandMult + 1)
  }

  /** The multiplier a freshly expanded bucket has. */
  ghost predicate Multiplied<K>(b: Bucket<K>, ideal: nat)
    requires ideal > 0
  {
    b.expandMult == if b.count > ideal then b.count / ideal else 0
  }

  lemma {:induction false} CountsBelowSlots<K>(bs: seq<Bucket<K>>)
    ensures 0 <= Sum(Count(), bs) <= Sum(Slots(), bs)
  {
    if bs != [] { CountsBelowSlots(bs[1..]); }
  }

  /** The load bound: at most 19 items per bucket. */
  lemma LoadBound<K>(bs: seq<Bucket<K>>)
    requires Loaded(bs)
    ensures Sum(Count(), bs) <= 19 * |bs|
  {
    CountsBelowSlots(bs);
  }

  lemma FreshLoaded<K>(bs: seq<Bucket<K>>)
    requires forall i :: 0 <= i < |bs| ==> bs[i].count == 0 && bs[i].expandMult == 0
    ensures Loaded(bs) && Sum(Count(), bs) == 0
  {
    SumConst(Slots(), bs, 9);
    SumConst(Count(), bs, 0);
  }

  /** Adding below the threshold of a bucket, and removing, keep the bound. */
  lemma ChangeKeepsLoaded<K>(bs: seq<Bucket<K>>, i: nat, b: Bucket<K>)
    requires Loaded(bs) && i < |bs| && b.expandMult == bs[i].expandMult
    requires b.count < CAPACITY_THRESH * (b.expandMult + 1) || b.count <= bs[i].count
    ensures Loaded(bs[i := b])
  {
    SumUpdate(Slots(), bs, i, b);
  }

  /** At an expansion the ideal chain length is between 1 and 10. */
  lemma IdealRange(items: nat, n: nat, ideal: nat)
    requires 1 <= n && 1 <= items <= 19 * n + 1
    requires ideal * (2 * n) >= items && forall d: nat :: d * (2 * n) >= items ==> d >= ideal
    ensures 1 <= ideal <= 10
  {
    assert 10 * (2 * n) >= items;
    assert 0 * (2 * n) == 0;
  }

  /** The multiplier is the count in units of the ideal length, rounded down. */
  lemma MultiplierBounds<K>(b: Bucket<K>, ideal: nat)
    requires 1 <= ideal && Multiplied(b, ideal)
    ensures ideal * b.expandMult <= b.count <= ideal * (b.expandMult + 1)
  {
    var m := b.expandMult;
    Distribute(ideal, m, 1);
    if b.count > ideal { assert b.count == ideal * m + b.count % ideal; }
  }

  lemma TenTimes(k: int, m: int)
    ensures k * (10 * m) == 10 * (k * m)
  {
  }

  lemma SlotsOfBucket<K>(b: Bucket<K>, ideal: nat)
    requires 1 <= ideal <= 10 && Multiplied(b, ideal)
    ensures ideal * Slots()(b) <= 9 * ideal + 10 * b.count
    ensures b.count <= CAPACITY_THRESH * (b.expandMult + 1)
  {
    var m := b.expandMult;
    MultiplierBounds(b, ideal);
    hide Multiplied;
    MulMono(ideal, 10, b.count);
    MulMono(ideal, 10, m + 1);
    Distribute(ideal, 10 * m, 9);
    TenTimes(ideal, m);
  }

  lemma {:induction false} SlotsOfBuckets<K>(bs: seq<Bucket<K>>, ideal: nat)
    requires 1 <= ideal <= 10 && forall i :: 0 <= i < |bs| ==> Multiplied(bs[i], ideal)
    ensures ideal * Sum(Slots(), bs) <= 9 * (ideal * |bs|) + 10 * Sum(Count(), bs)
  {
    if bs != [] {
      SlotsOfBuckets(bs[1..], ideal);
      SlotsOfBucket(bs[0], ideal);
      Distribute(ideal, Slots()(bs[0]), Sum(Slots(), bs[1..]));
      Distribute(ideal, 1, |bs[1..]|);
    }
  }

  lemma Distribute(k: int, a: int, b: int)
    ensures k * (a + b) == k * a + k * b
  {
  }

  /** Expansion re-establishes the bound, whatever the hash function did. */
  lemma ExpansionLoaded<K>(bs: seq<Bucket<K>>, ideal: nat)
    requires 1 <= ideal <= 10 && (forall i :: 0 <= i < |bs| ==> Multiplied(bs[i], ideal))
    requires Sum(Count(), bs) <= ideal * |bs|
    ensures Loaded(bs)
  {
    SlotsOfBuckets(bs, ideal);
    CancelFactor(ideal, Sum(Slots(), bs), |bs|);
    forall i | 0 <= i < |bs| ensures bs[i].count <= CAPACITY_THRESH * (bs[i].expandMult + 1) {
      SlotsOfBucket(bs[i], ideal);
    }
  }

  lemma CancelFactor(k: int, s: int, n: int)
    requires k >= 1 && k * s <= 19 * (k * n)
    ensures s <= 19 * n
  {
    assert 19 * (k * n) == k * (19 * n);
    if s > 19 * n { MulMono(19 * n + 1, s, k); }
  }
}
