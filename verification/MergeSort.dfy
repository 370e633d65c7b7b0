/** What the bottom-up merge sorts of uthash.h and utlist.h compute, on sequences, and why it is a stable sort. */
module MergeSort {

  /** le is a total preorder on the elements of s. */
  ghost predicate TotalPreorder<T>(le: (T, T) -> bool, s: seq<T>) {
    (forall x, y :: x in s && y in s ==> le(x, y) || le(y, x))
    && (forall x, y, z :: x in s && y in s && z in s && le(x, y) && le(y, z) ==> le(x, z))
  }

  ghost predicate Ordered<T>(le: (T, T) -> bool, s: seq<T>) {
    forall i, j :: 0 <= i < j < |s| ==> le(s[i], s[j])
  }

  ghost predicate Equiv<T>(le: (T, T) -> bool, x: T, y: T) {
    le(x, y) && le(y, x)
  }

  /** The elements of s equivalent to x, in their order in s. */
  ghost function Class<T>(le: (T, T) -> bool, s: seq<T>, x: T): seq<T> {
    if s == [] then []
    else if Equiv(le, x, s[0]) then [s[0]] + Class(le, s[1..], x)
    else Class(le, s[1..], x)
  }

  lemma ClassMembers<T>(le: (T, T) -> bool, s: seq<T>, x: T)
    ensures forall y :: y in Class(le, s, x) ==> y in s && Equiv(le, x, y)
    ensures x in s && le(x, x) ==> x in Class(le, s, x)
  {
  }

  /** t is s sorted by le with equivalent elements kept in their order. */
  ghost predicate IsStableSort<T>(le: (T, T) -> bool, s: seq<T>, t: seq<T>) {
    multiset(t) == multiset(s) && Ordered(le, t)
    && forall x :: x in s ==> Class(le, t, x) == Class(le, s, x)
  }

  // ---------- The algorithm ----------

  /** Merging two runs; the first run wins a tie. */
  function Merge<T>(le: (T, T) -> bool, p: seq<T>, q: seq<T>): (r: seq<T>)
    ensures |r| == |p| + |q|
  {
    if p == [] then q
    else if q == [] then p
    else if le(p[0], q[0]) then [p[0]] + Merge(le, p[1..], q)
    else [q[0]] + Merge(le, p, q[1..])
  }

  function RunEnd(n: nat, size: nat): nat { if size < n then size else n }

  /** One pass: consecutive pairs of runs of the given size are merged. */
  function Pass<T>(le: (T, T) -> bool, s: seq<T>, size: nat): (r: seq<T>)
    requires 0 < size
    ensures |r| == |s|
  {
    if s == [] then []
    else
      var p, rest := s[..RunEnd(|s|, size)], s[RunEnd(|s|, size)..];
      Merge(le, p, rest[..RunEnd(|rest|, size)]) + Pass(le, rest[RunEnd(|rest|, size)..], size)
  }

  /** Passes with doubling run size until a pass makes at most one merge. */
  function Sort<T>(le: (T, T) -> bool, s: seq<T>, size: nat): (r: seq<T>)
    requires 0 < size
    ensures |r| == |s|
    decreases |s| - size
  {
    var t := Pass(le, s, size);
    if |s| <= 2 * size then t else Sort(le, t, 2 * size)
  }

  /** p1 and q1 are the two runs at the head of r, and u is what follows them. */
  ghost predicate Split<T>(insize: nat, r: seq<T>, p1: seq<T>, q1: seq<T>, u: seq<T>) {
    var rest := r[RunEnd(|r|, insize)..];
    p1 == r[..RunEnd(|r|, insize)] && q1 == rest[..RunEnd(|rest|, insize)] && u == rest[RunEnd(|rest|, insize)..]
  }

  lemma SplitParts<T>(insize: nat, r: seq<T>, p1: seq<T>, q1: seq<T>, u: seq<T>)
    requires 0 < insize && r != [] && Split(insize, r, p1, q1, u)
    ensures r == p1 + (q1 + u) && q1 + u == r[RunEnd(|r|, insize)..]
    ensures |p1| == RunEnd(|r|, insize) && |q1| <= insize && (|q1| < insize ==> u == [])
    ensures |p1| + |q1| + |u| == |r| && |p1| + |q1| == RunEnd(|r|, 2 * insize)
  {
    var rest := r[RunEnd(|r|, insize)..];
    assert |rest| == |r| - RunEnd(|r|, insize) && |q1| == RunEnd(|rest|, insize) && |u| == |rest| - |q1|;
    assert rest == q1 + u;
  }

  lemma PassStep<T>(le: (T, T) -> bool, size: nat, r: seq<T>, p1: seq<T>, q1: seq<T>, u: seq<T>)
    requires 0 < size && r != [] && Split(size, r, p1, q1, u)
    ensures Pass(le, r, size) == Merge(le, p1, q1) + Pass(le, u, size)
  {
    hide Merge;
  }

  lemma PassUnfold<T>(le: (T, T) -> bool, insize: nat, d: seq<T>, r: seq<T>, p1: seq<T>, q1: seq<T>, u: seq<T>)
    requires 0 < insize && r != [] && Split(insize, r, p1, q1, u)
    ensures d + Pass(le, r, insize) == d + Merge(le, p1, q1) + Pass(le, u, insize)
  {
    hide Merge, Pass;
    PassStep(le, insize, r, p1, q1, u);
    Assoc(d, Merge(le, p1, q1), Pass(le, u, insize));
  }

  lemma PassNil<T>(le: (T, T) -> bool, insize: nat)
    requires 0 < insize
    ensures Pass(le, [], insize) == []
  {
  }

  lemma PassLength<T>(le: (T, T) -> bool, s: seq<T>, size: nat)
    requires 0 < size
    ensures |Pass(le, s, size)| == |s|
  {
  }

  lemma Assoc<T>(a: seq<T>, b: seq<T>, c: seq<T>)
    ensures a + (b + c) == a + b + c
  {
  }

  // ---------- It is a permutation, whatever the comparison ----------

  lemma {:induction false} PassPermutes<T>(le: (T, T) -> bool, s: seq<T>, size: nat)
    requires 0 < size
    ensures multiset(Pass(le, s, size)) == multiset(s)
  {
    hide Merge, Pass;
    if s == [] {
      PassNil(le, size);
    } else {
      var p, rest := s[..RunEnd(|s|, size)], s[RunEnd(|s|, size)..];
      var q, u := rest[..RunEnd(|rest|, size)], rest[RunEnd(|rest|, size)..];
      SplitParts(size, s, p, q, u);
      PassStep(le, size, s, p, q, u);
      PassPermutes(le, u, size);
      MergePermutes(le, p, q);
      SamePieces(Merge(le, p, q), Pass(le, u, size), p, q, u, rest, s);
    }
  }

  lemma {:induction false} MergePermutes<T>(le: (T, T) -> bool, p: seq<T>, q: seq<T>)
    ensures multiset(Merge(le, p, q)) == multiset(p) + multiset(q)
  {
    if p != [] && q != [] {
      assert p == [p[0]] + p[1..] && q == [q[0]] + q[1..];
      if le(p[0], q[0]) { MergePermutes(le, p[1..], q); } else { MergePermutes(le, p, q[1..]); }
    }
  }

  lemma SamePieces<T>(m: seq<T>, t: seq<T>, p: seq<T>, q: seq<T>, tail: seq<T>, rest: seq<T>, s: seq<T>)
    requires s == p + rest && rest == q + tail
    requires multiset(m) == multiset(p) + multiset(q) && multiset(t) == multiset(tail)
    ensures multiset(m + t) == multiset(s)
  {
  }

  lemma {:induction false} SortPermutes<T>(le: (T, T) -> bool, s: seq<T>, size: nat)
    requires 0 < size
    ensures multiset(Sort(le, s, size)) == multiset(s)
    decreases |s| - size
  {
    PassPermutes(le, s, size);
    if |s| > 2 * size { SortPermutes(le, Pass(le, s, size), 2 * size); }
  }

  // ---------- It is a stable sort ----------

  lemma {:induction false} ClassConcat<T>(le: (T, T) -> bool, s: seq<T>, t: seq<T>, x: T)
    ensures Class(le, s + t, x) == Class(le, s, x) + Class(le, t, x)
  {
    if s == [] {
      assert s + t == t;
    } else {
      assert (s + t)[1..] == s[1..] + t;
      ClassConcat(le, s[1..], t, x);
    }
  }

  lemma ClassConcat3<T>(le: (T, T) -> bool, s: seq<T>, t: seq<T>, u: seq<T>, x: T)
    ensures Class(le, s + (t + u), x) == (Class(le, s, x) + Class(le, t, x)) + Class(le, u, x)
  {
    ClassConcat(le, t, u, x);
    ClassConcat(le, s, t + u, x);
  }

  lemma SubPreorder<T>(le: (T, T) -> bool, s: seq<T>, t: seq<T>)
    requires TotalPreorder(le, s) && forall x :: x in t ==> x in s
    ensures TotalPreorder(le, t)
  {
  }

  lemma {:induction false} MergeSorts<T>(le: (T, T) -> bool, p: seq<T>, q: seq<T>, s: seq<T>)
    requires TotalPreorder(le, s) && (forall x :: x in p || x in q ==> x in s)
    requires Ordered(le, p) && Ordered(le, q)
    ensures Ordered(le, Merge(le, p, q))
    ensures forall x :: x in Merge(le, p, q) ==> x in p || x in q
    ensures forall x :: x in s ==> Class(le, Merge(le, p, q), x) == Class(le, p, x) + Class(le, q, x)
  {
    hide TotalPreorder, Equiv, Class, Ordered;
    var r := Merge(le, p, q);
    MergePermutes(le, p, q);
    MembersOfMultiset(r, p + q);
    if p == [] || q == [] {
      NilClass(le);
    } else if le(p[0], q[0]) {
      assert r[0] == p[0] && r[1..] == Merge(le, p[1..], q);
      OrderedTail(le, p);
      MergeSorts(le, p[1..], q, s);
      OrderedCons(le, p[0], p, q, r, s);
      FirstWins(le, p, q, r, s);
    } else {
      assert r[0] == q[0] && r[1..] == Merge(le, p, q[1..]);
      OrderedTail(le, q);
      MergeSorts(le, p, q[1..], s);
      OneWay(le, q[0], p[0], s);
      OrderedCons(le, q[0], q, p, r, s);
      forall x | x in s ensures Class(le, r, x) == Class(le, p, x) + Class(le, q, x) {
        SecondWins(le, p, q, r, x, s);
      }
    }
  }

  lemma NilClass<T>(le: (T, T) -> bool)
    ensures forall x :: Class(le, [], x) == []
  {
  }

  lemma OrderedTail<T>(le: (T, T) -> bool, s: seq<T>)
    requires s != [] && Ordered(le, s)
    ensures Ordered(le, s[1..])
  {
  }

  lemma FirstWins<T>(le: (T, T) -> bool, p: seq<T>, q: seq<T>, r: seq<T>, s: seq<T>)
    requires p != [] && r != [] && r[0] == p[0]
    requires forall x :: x in s ==> Class(le, r[1..], x) == Class(le, p[1..], x) + Class(le, q, x)
    ensures forall x :: x in s ==> Class(le, r, x) == Class(le, p, x) + Class(le, q, x)
  {
  }

  lemma SecondWins<T>(le: (T, T) -> bool, p: seq<T>, q: seq<T>, r: seq<T>, x: T, s: seq<T>)
    requires TotalPreorder(le, s) && x in s && (forall z :: z in p ==> z in s)
    requires p != [] && q != [] && q[0] in s && Ordered(le, p) && !le(p[0], q[0])
    requires r != [] && r[0] == q[0] && Class(le, r[1..], x) == Class(le, p, x) + Class(le, q[1..], x)
    ensures Class(le, r, x) == Class(le, p, x) + Class(le, q, x)
  {
    hide TotalPreorder, Equiv, Ordered;
    if Equiv(le, x, q[0]) {
      NoneEquivalent(le, x, q[0], p, s);
    }
  }

  lemma OneWay<T>(le: (T, T) -> bool, x: T, y: T, s: seq<T>)
    requires TotalPreorder(le, s) && x in s && y in s && !le(y, x)
    ensures le(x, y)
  {
  }

  lemma MembersOfMultiset<T>(r: seq<T>, s: seq<T>)
    requires multiset(r) == multiset(s)
    ensures forall x :: x in r ==> x in s
    ensures forall x :: x in s ==> x in r
  {
    forall x | x in r ensures x in s {
      assert x in multiset(r);
    }
    forall x | x in s ensures x in r {
      assert x in multiset(s);
    }
  }

  /** The head of one run, below the head of the other, is below everything that follows it. */
  lemma OrderedCons<T>(le: (T, T) -> bool, x: T, own: seq<T>, other: seq<T>, r: seq<T>, s: seq<T>)
    requires TotalPreorder(le, s) && (forall y :: y in own || y in other ==> y in s)
    requires own != [] && other != [] && x == own[0] && le(x, other[0])
    requires Ordered(le, own) && Ordered(le, other)
    requires r != [] && r[0] == x && Ordered(le, r[1..])
    requires forall y :: y in r[1..] ==> y in own || y in other
    ensures Ordered(le, r)
  {
    forall i, j | 0 <= i < j < |r| ensures le(r[i], r[j]) {
      if i == 0 {
        assert r[j] in r[1..];
      } else {
        assert r[i] == r[1..][i - 1] && r[j] == r[1..][j - 1];
      }
    }
  }

  /** Nothing in an ordered run whose head is strictly above y is equivalent to y. */
  lemma NoneEquivalent<T>(le: (T, T) -> bool, x: T, y: T, p: seq<T>, s: seq<T>)
    requires TotalPreorder(le, s) && x in s && y in s && (forall z :: z in p ==> z in s)
    requires p != [] && Ordered(le, p) && !le(p[0], y) && Equiv(le, x, y)
    ensures Class(le, p, x) == []
  {
    assert forall z :: z in p ==> le(p[0], z) by {
      assert le(p[0], p[0]);
    }
    NoClass(le, p, x);
  }

  lemma NoClass<T>(le: (T, T) -> bool, p: seq<T>, x: T)
    requires forall z :: z in p ==> !Equiv(le, x, z)
    ensures Class(le, p, x) == []
  {
  }

  /** Every run of the given size is ordered. */
  ghost predicate Runs<T>(le: (T, T) -> bool, s: seq<T>, size: nat)
    requires 0 < size
  {
    s == [] || (Ordered(le, s[..RunEnd(|s|, size)]) && Runs(le, s[RunEnd(|s|, size)..], size))
  }

  lemma {:induction false} PassDoublesRuns<T>(le: (T, T) -> bool, s: seq<T>, size: nat, all: seq<T>)
    requires 0 < size && Runs(le, s, size)
    requires TotalPreorder(le, all) && forall x :: x in s ==> x in all
    ensures Runs(le, Pass(le, s, size), 2 * size)
    ensures multiset(Pass(le, s, size)) == multiset(s)
    ensures forall x :: x in all ==> Class(le, Pass(le, s, size), x) == Class(le, s, x)
  {
    hide TotalPreorder, Class, Merge, Ordered, Runs, Pass;
    PassPermutes(le, s, size);
    if s == [] {
      RunsNil(le, size);
      PassNil(le, size);
    } else {
      var p, rest := s[..RunEnd(|s|, size)], s[RunEnd(|s|, size)..];
      var q, u := rest[..RunEnd(|rest|, size)], rest[RunEnd(|rest|, size)..];
      SplitParts(size, s, p, q, u);
      PassStep(le, size, s, p, q, u);
      RunsSplit(le, s, size, p, q, u);
      MergeSorts(le, p, q, all);
      PassDoublesRuns(le, u, size, all);
      var m, t := Merge(le, p, q), Pass(le, u, size);
      forall x | x in all ensures Class(le, m + t, x) == Class(le, s, x) {
        ClassConcat(le, m, t, x);
        ClassConcat3(le, p, q, u, x);
      }
      PassLength(le, u, size);
      RunsCons(le, m, t, 2 * size);
    }
  }

  lemma RunsNil<T>(le: (T, T) -> bool, size: nat)
    requires 0 < size
    ensures Runs(le, [], 2 * size)
  {
  }

  lemma RunsSplit<T>(le: (T, T) -> bool, s: seq<T>, size: nat, p: seq<T>, q: seq<T>, u: seq<T>)
    requires 0 < size && s != [] && Runs(le, s, size) && Split(size, s, p, q, u)
    ensures Ordered(le, p) && Ordered(le, q) && Runs(le, u, size)
  {
    var rest := s[RunEnd(|s|, size)..];
    if rest == [] { OrderedNil(le); }
    hide Ordered;
  }

  lemma OrderedNil<T>(le: (T, T) -> bool)
    ensures Ordered(le, [])
  {
  }

  lemma RunsCons<T>(le: (T, T) -> bool, m: seq<T>, t: seq<T>, size: nat)
    requires 0 < |m| <= size && (|m| < size ==> t == []) && Ordered(le, m) && Runs(le, t, size)
    ensures Runs(le, m + t, size)
  {
    assert (m + t)[..RunEnd(|m + t|, size)] == m;
    assert (m + t)[RunEnd(|m + t|, size)..] == t;
  }

  lemma {:induction false} SortStep<T>(le: (T, T) -> bool, s: seq<T>, size: nat)
    requires 0 < size && Runs(le, s, size) && TotalPreorder(le, s)
    ensures IsStableSort(le, s, Sort(le, s, size))
    decreases |s| - size
  {
    hide TotalPreorder, Class, Pass;
    var t := Pass(le, s, size);
    PassDoublesRuns(le, s, size, s);
    MembersOfMultiset(t, s);
    if |s| <= 2 * size {
      assert Ordered(le, t) by { OneRun(le, t, 2 * size); }
    } else {
      SubPreorder(le, s, t);
      SortStep(le, t, 2 * size);
    }
  }

  lemma OneRun<T>(le: (T, T) -> bool, t: seq<T>, size: nat)
    requires 0 < size && |t| <= size && Runs(le, t, size)
    ensures Ordered(le, t)
  {
    assert t[..RunEnd(|t|, size)] == t;
  }

  /** The bottom-up merge sort is a stable sort. */
  lemma SortIsStable<T>(le: (T, T) -> bool, s: seq<T>)
    requires TotalPreorder(le, s)
    ensures IsStableSort(le, s, Sort(le, s, 1))
  {
    SingletonRuns(le, s);
    SortStep(le, s, 1);
  }

  lemma SingletonRuns<T>(le: (T, T) -> bool, s: seq<T>)
    ensures Runs(le, s, 1)
  {
    if s != [] { SingletonRuns(le, s[1..]); }
  }

  /** There is only one stable sort of a sequence, so the property specifies the result completely. */
  lemma {:induction false} StableSortUnique<T>(le: (T, T) -> bool, s: seq<T>, t: seq<T>, u: seq<T>)
    requires TotalPreorder(le, s) && IsStableSort(le, s, t) && IsStableSort(le, s, u)
    ensures t == u
  {
    MembersOfMultiset(t, s);
    MembersOfMultiset(u, s);
    SameClassesSame(le, s, t, u);
  }

  lemma {:induction false} SameClassesSame<T>(le: (T, T) -> bool, all: seq<T>, t: seq<T>, u: seq<T>)
    requires TotalPreorder(le, all) && Ordered(le, t) && Ordered(le, u)
    requires forall x :: x in t || x in u ==> x in all
    requires forall x :: x in all ==> Class(le, t, x) == Class(le, u, x)
    ensures t == u
  {
    if t == [] || u == [] {
      SameEmpty(le, all, t, u);
      SameEmpty(le, all, u, t);
    } else {
      SameHead(le, all, t, u);
      forall x | x in all ensures Class(le, t[1..], x) == Class(le, u[1..], x) {
        assert Class(le, t, x) == Class(le, u, x);
        if Equiv(le, x, t[0]) {
          assert Class(le, t, x)[1..] == Class(le, t[1..], x);
          assert Class(le, u, x)[1..] == Class(le, u[1..], x);
        }
      }
      SameClassesSame(le, all, t[1..], u[1..]);
      assert t == [t[0]] + t[1..] && u == [u[0]] + u[1..];
    }
  }

  lemma SameEmpty<T>(le: (T, T) -> bool, all: seq<T>, t: seq<T>, u: seq<T>)
    requires TotalPreorder(le, all) && forall x :: x in t || x in u ==> x in all
    requires forall x :: x in all ==> Class(le, t, x) == Class(le, u, x)
    ensures t == [] ==> u == []
  {
    if u != [] {
      assert le(u[0], u[0]);
      ClassMembers(le, u, u[0]);
    }
  }

  lemma SameHead<T>(le: (T, T) -> bool, all: seq<T>, t: seq<T>, u: seq<T>)
    requires TotalPreorder(le, all) && Ordered(le, t) && Ordered(le, u) && t != [] && u != []
    requires forall x :: x in t || x in u ==> x in all
    requires forall x :: x in all ==> Class(le, t, x) == Class(le, u, x)
    ensures t[0] == u[0]
  {
    var a, b := t[0], u[0];
    assert le(a, a) && le(b, b);
    assert Class(le, t, a)[0] == a && Class(le, u, b)[0] == b;
    ClassMembers(le, u, a);
    ClassMembers(le, t, b);
    assert a in u && b in t;
    assert le(a, b) && le(b, a);
    assert Class(le, u, a)[0] == b;
  }
}
