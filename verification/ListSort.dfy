/** The node type shared by the uthash table and the utlist lists. */
module Handles {

  /** UT_hash_handle: insertion-order links, bucket links, key and hash value.
      A utlist element uses the links prev and next only. */
  class Handle<K(==)> {
    const key: K
    var prev: Handle?<K>
    var next: Handle?<K>
    var hhPrev: Handle?<K>
    var hhNext: Handle?<K>
    var hashv: nat

    constructor (key: K)
      ensures this.key == key
    {
      this.key := key;
      prev, next, hhPrev, hhNext, hashv := null, null, null, null, 0;
    }
  }

  ghost predicate Distinct<T>(s: seq<T>) {
    forall i, j :: 0 <= i < j < |s| ==> s[i] != s[j]
  }

  ghost function Nodes<K>(s: seq<Handle<K>>): set<Handle<K>> {
    set h | h in s
  }

  function First<K>(s: seq<Handle<K>>): Handle?<K> {
    if s == [] then null else s[0]
  }
}

/** The in-place merge sorts HASH_SRT, LL_SORT2, DL_SORT2 and CDL_SORT2. The four macros differ in whether
    prev is written, in what ends the list, and in what is stored at the end of a pass. */
module ListSort {
  import opened Handles
  import opened MergeSort

  datatype Form = HashOrder | Singly | Doubly | Circular

  /** Each node's next is the following node of s. */
  ghost predicate Inner<K>(s: seq<Handle<K>>)
    reads Nodes(s)`next
  {
    forall i :: 0 <= i < |s| - 1 ==> s[i].next == s[i + 1]
  }

  /** Each node's prev is the preceding node of s. */
  ghost predicate Back<K>(s: seq<Handle<K>>)
    reads Nodes(s)`prev
  {
    forall i :: 0 < i < |s| ==> s[i].prev == s[i - 1]
  }

  /** A list of the given form: s in order, ended and closed the way the form asks for. */
  ghost predicate IsList<K>(form: Form, s: seq<Handle<K>>)
    reads Nodes(s)`next, Nodes(s)`prev
  {
    Distinct(s) && Inner(s)
    && (s != [] ==> s[|s| - 1].next == if form == Circular then s[0] else null)
    && (form != Singly ==> Back(s))
    && (s != [] && form == HashOrder ==> s[0].prev == null)
    && (s != [] && (form == Doubly || form == Circular) ==> s[0].prev == s[|s| - 1])
  }

  /** The list still to be read, ending at null or, when circular, at the old head. */
  ghost predicate Rest<K>(form: Form, r: seq<Handle<K>>, oldHead: Handle<K>)
    reads Nodes(r)`next
  {
    Inner(r) && (r != [] ==> r[|r| - 1].next == if form == Circular then oldHead else null)
    && (forall i :: 0 < i < |r| ==> r[i] != oldHead)
  }

  /** The list built so far in a pass. */
  ghost predicate Built<K>(form: Form, d: seq<Handle<K>>, list: Handle?<K>, tail: Handle?<K>)
    reads Nodes(d)`next, Nodes(d)`prev
  {
    list == First(d) && tail == (if d == [] then null else d[|d| - 1])
    && Inner(d) && (form != Singly ==> Back(d) && (d != [] ==> d[0].prev == null))
  }

  /** The three sequences have no node twice. */
  ghost predicate Apart<K>(d: seq<Handle<K>>, p: seq<Handle<K>>, r: seq<Handle<K>>) {
    Distinct(d) && Distinct(p) && Distinct(r)
    && (forall h :: h in d ==> h !in p && h !in r) && (forall h :: h in p ==> h !in r)
  }

  /** The comparison function as the macros use it: a non-positive result keeps the order. */
  function Le<K>(cmp: (Handle<K>, Handle<K>) -> int): (Handle<K>, Handle<K>) -> bool {
    (a: Handle<K>, b: Handle<K>) => cmp(a, b) <= 0
  }

  // ---- What the sort promises, in terms of the comparison function itself

  /** Any two nodes can be compared, and the comparison is transitive. */
  ghost predicate Comparable<K>(cmp: (Handle<K>, Handle<K>) -> int, s: seq<Handle<K>>) {
    (forall x, y :: x in s && y in s ==> cmp(x, y) <= 0 || cmp(y, x) <= 0)
    && (forall x, y, z :: x in s && y in s && z in s && cmp(x, y) <= 0 && cmp(y, z) <= 0 ==> cmp(x, z) <= 0)
  }

  ghost predicate Ascending<K>(cmp: (Handle<K>, Handle<K>) -> int, t: seq<Handle<K>>) {
    forall i, j :: 0 <= i < j < |t| ==> cmp(t[i], t[j]) <= 0
  }

  /** Nodes that compare equal are in t in the order that they have in s. */
  ghost predicate KeepsTies<K>(cmp: (Handle<K>, Handle<K>) -> int, s: seq<Handle<K>>, t: seq<Handle<K>>) {
    forall a, b, i, j | 0 <= a < b < |s| && 0 <= i < |t| && 0 <= j < |t| && t[i] == s[a] && t[j] == s[b] ::
      cmp(s[a], s[b]) <= 0 && cmp(s[b], s[a]) <= 0 ==> i < j
  }

  ghost predicate SortedBy<K>(cmp: (Handle<K>, Handle<K>) -> int, s: seq<Handle<K>>, t: seq<Handle<K>>) {
    Comparable(cmp, s) ==> Ascending(cmp, t) && KeepsTies(cmp, s, t)
  }

  /** An element of a class has as many of the class before it in the class as in the sequence. */
  lemma ClassPlace<T>(le: (T, T) -> bool, s: seq<T>, x: T, i: nat)
    requires i < |s| && Equiv(le, x, s[i])
    ensures |Class(le, s[..i], x)| < |Class(le, s, x)| && Class(le, s, x)[|Class(le, s[..i], x)|] == s[i]
  {
    assert s == s[..i] + s[i..] && s[i..][0] == s[i];
    ClassConcat(le, s[..i], s[i..], x);
  }

  lemma ClassPlaces<T>(le: (T, T) -> bool, s: seq<T>, x: T, i: nat, j: nat)
    requires i < j < |s| && Equiv(le, x, s[i])
    ensures |Class(le, s[..i], x)| < |Class(le, s[..j], x)|
  {
    assert s[..j][..i] == s[..i] && s[..j][i] == s[i];
    ClassPlace(le, s[..j], x, i);
  }

  lemma {:induction false} ClassDistinct<T>(le: (T, T) -> bool, s: seq<T>, x: T)
    requires Distinct(s)
    ensures Distinct(Class(le, s, x))
  {
    if s != [] {
      DistinctTail(s);
      ClassDistinct(le, s[1..], x);
      ClassMembers(le, s[1..], x);
    }
  }

  lemma DistinctTail<T>(s: seq<T>)
    requires Distinct(s) && s != []
    ensures Distinct(s[1..]) && s[0] !in s[1..]
  {
    forall i | 0 <= i < |s[1..]| ensures s[1..][i] != s[0] { assert s[1..][i] == s[i + 1]; }
  }

  /** Classes kept as they are keep the order of their elements. */
  lemma TieKept<T>(le: (T, T) -> bool, s: seq<T>, t: seq<T>, a: nat, b: nat, i: nat, j: nat)
    requires Distinct(s) && Distinct(t) && a < b < |s| && i < |t| && j < |t| && t[i] == s[a] && t[j] == s[b]
    requires Equiv(le, s[a], s[a]) && Equiv(le, s[a], s[b]) && Class(le, t, s[a]) == Class(le, s, s[a])
    ensures i < j
  {
    var x := s[a];
    ClassDistinct(le, s, x);
    ClassPlace(le, s, x, a);
    ClassPlace(le, s, x, b);
    ClassPlaces(le, s, x, a, b);
    ClassPlace(le, t, x, i);
    ClassPlace(le, t, x, j);
    if j < i { ClassPlaces(le, t, x, j, i); }
    hide Class, Equiv;
  }

  lemma LePreorder<K>(cmp: (Handle<K>, Handle<K>) -> int, s: seq<Handle<K>>)
    requires Comparable(cmp, s)
    ensures TotalPreorder(Le(cmp), s)
  {
  }

  lemma LeOrdered<K>(cmp: (Handle<K>, Handle<K>) -> int, t: seq<Handle<K>>)
    requires Ordered(Le(cmp), t)
    ensures Ascending(cmp, t)
  {
    forall i, j | 0 <= i < j < |t| ensures cmp(t[i], t[j]) <= 0 { assert Le(cmp)(t[i], t[j]); }
  }

  lemma LeTies<K>(cmp: (Handle<K>, Handle<K>) -> int, s: seq<Handle<K>>, t: seq<Handle<K>>)
    requires Distinct(s) && Distinct(t) && TotalPreorder(Le(cmp), s)
    requires forall x :: x in s ==> Class(Le(cmp), t, x) == Class(Le(cmp), s, x)
    ensures KeepsTies(cmp, s, t)
  {
    hide Class, Distinct;
    forall a, b, i, j | 0 <= a < b < |s| && 0 <= i < |t| && 0 <= j < |t| && t[i] == s[a] && t[j] == s[b]
      && cmp(s[a], s[b]) <= 0 && cmp(s[b], s[a]) <= 0
      ensures i < j
    {
      assert s[a] in s;
      assert Class(Le(cmp), t, s[a]) == Class(Le(cmp), s, s[a]);
      TieKept(Le(cmp), s, t, a, b, i, j);
    }
  }

  lemma {:induction false} CountOnce<T>(s: seq<T>, x: T)
    requires Distinct(s)
    ensures multiset(s)[x] <= 1
  {
    if s != [] {
      DistinctTail(s);
      CountOnce(s[1..], x);
      assert s == [s[0]] + s[1..];
    }
  }

  lemma CountTwice<T>(t: seq<T>, i: nat, j: nat)
    requires i < j < |t| && t[i] == t[j]
    ensures multiset(t)[t[i]] >= 2
  {
    assert t == t[..j] + t[j..] && t[i] in t[..j] && t[j..][0] == t[j];
  }

  lemma PermDistinct<T>(s: seq<T>, t: seq<T>)
    requires Distinct(s) && multiset(t) == multiset(s)
    ensures Distinct(t)
  {
    forall i, j | 0 <= i < j < |t| ensures t[i] != t[j] {
      CountOnce(s, t[i]);
      if t[i] == t[j] { CountTwice(t, i, j); }
    }
  }

  /** The bottom-up merge sort sorts by the comparison function: a result that is not positive keeps the order. */
  lemma SortSorts<K>(cmp: (Handle<K>, Handle<K>) -> int, s: seq<Handle<K>>)
    requires Distinct(s)
    ensures SortedBy(cmp, s, Sort(Le(cmp), s, 1))
  {
    if Comparable(cmp, s) {
      hide Comparable, Ascending, KeepsTies, Sort, Le, TotalPreorder, Distinct, Ordered, Class;
      var t := Sort(Le(cmp), s, 1);
      LePreorder(cmp, s);
      SortIsStable(Le(cmp), s);
      PermDistinct(s, t);
      LeOrdered(cmp, t);
      LeTies(cmp, s, t);
    }
  }

  /** Following next, with the old head read as the end of a circular list. */
  function Advance<K>(form: Form, x: Handle<K>, oldHead: Handle<K>): Handle?<K>
    reads x`next
  {
    if form == Circular && x.next == oldHead then null else x.next
  }

  lemma ApartParts<K>(d: seq<Handle<K>>, p: seq<Handle<K>>, r: seq<Handle<K>>)
    requires Apart(d, p, r) && p != []
    ensures p[0] !in d && p[0] !in p[1..] && p[0] !in r
    ensures Distinct(d + [p[0]]) && Distinct(p[1..])
  {
    var e := d + [p[0]];
    assert p[0] in p;
    forall i, j | 0 <= i < j < |e| ensures e[i] != e[j] {
      assert e[i] == d[i] && e[i] in d;
      if j < |d| { assert e[j] == d[j]; } else { assert e[j] == p[0]; }
    }
    forall i, j | 0 <= i < j < |p[1..]| ensures p[1..][i] != p[1..][j] {
      assert p[1..][i] == p[i + 1] && p[1..][j] == p[j + 1];
    }
    forall j | 0 <= j < |p[1..]| ensures p[1..][j] != p[0] {
      assert p[1..][j] == p[j + 1];
    }
  }

  lemma TakeHead<K>(d: seq<Handle<K>>, p: seq<Handle<K>>, r: seq<Handle<K>>)
    requires Apart(d, p, r) && p != []
    ensures Apart(d + [p[0]], p[1..], r) && Apart(d, p[1..], r) && p[0] !in d
  {
    ApartParts(d, p, r);
    hide Distinct;
    assert forall h :: h in p[1..] ==> h in p;
    assert forall h :: h in d + [p[0]] ==> h in d || h == p[0];
  }

  lemma TakeSecond<K>(d: seq<Handle<K>>, p: seq<Handle<K>>, r: seq<Handle<K>>)
    requires Apart(d, p, r) && r != []
    ensures Apart(d + [r[0]], p, r[1..]) && Apart(d, p, r[1..]) && r[0] !in d
  {
    ApartSwap(d, p, r);
    TakeHead(d, r, p);
    ApartSwap(d + [r[0]], r[1..], p);
    ApartSwap(d, r[1..], p);
  }

  lemma ApartSwap<K>(d: seq<Handle<K>>, p: seq<Handle<K>>, r: seq<Handle<K>>)
    requires Apart(d, p, r)
    ensures Apart(d, r, p)
  {
    hide Distinct;
  }

  /** The two ways in which a merge begins. */
  lemma MergeBegins<T>(le: (T, T) -> bool, p: seq<T>, q: seq<T>)
    ensures p != [] && (q == [] || le(p[0], q[0])) ==> Merge(le, p, q) == [p[0]] + Merge(le, p[1..], q)
    ensures q != [] && (p == [] || !le(p[0], q[0])) ==> Merge(le, p, q) == [q[0]] + Merge(le, p, q[1..])
  {
    assert p != [] ==> p == [p[0]] + p[1..];
    assert q != [] ==> q == [q[0]] + q[1..];
  }

  lemma MergeFirst<T>(le: (T, T) -> bool, d: seq<T>, p: seq<T>, q: seq<T>)
    requires p != [] && (q == [] || le(p[0], q[0]))
    ensures d + Merge(le, p, q) == d + [p[0]] + Merge(le, p[1..], q)
  {
    hide Merge;
    MergeBegins(le, p, q);
    Assoc(d, [p[0]], Merge(le, p[1..], q));
  }

  lemma MergeSecond<T>(le: (T, T) -> bool, d: seq<T>, p: seq<T>, q: seq<T>)
    requires q != [] && (p == [] || !le(p[0], q[0]))
    ensures d + Merge(le, p, q) == d + [q[0]] + Merge(le, p, q[1..])
  {
    hide Merge;
    MergeBegins(le, p, q);
    Assoc(d, [q[0]], Merge(le, p, q[1..]));
  }

  lemma MergeNil<T>(le: (T, T) -> bool, d: seq<T>)
    ensures d + Merge(le, [], []) == d
  {
  }

  /** The state of the inner loop: d is built; r, of psize nodes at p, and s, at q, are the rests of the
      two runs; u is what follows them. */
  ghost predicate Merging<K>(form: Form, oldHead: Handle<K>, p: Handle?<K>, psize: nat, q: Handle?<K>, qsize: nat,
                             r: seq<Handle<K>>, s: seq<Handle<K>>, u: seq<Handle<K>>)
    reads Nodes(r)`next, Nodes(s + u)`next
  {
    psize == |r| && (r != [] ==> p == r[0]) && Inner(r) && (forall i :: 0 < i < |r| ==> r[i] != oldHead)
    && Rest(form, s + u, oldHead) && oldHead !in s + u && q == First(s + u)
    && |s| <= qsize && (|s| < qsize ==> u == [])
  }

  lemma MergingDone<K>(form: Form, oldHead: Handle<K>, p: Handle?<K>, psize: nat, q: Handle?<K>, qsize: nat,
                       r: seq<Handle<K>>, s: seq<Handle<K>>, u: seq<Handle<K>>)
    requires Merging(form, oldHead, p, psize, q, qsize, r, s, u) && !(psize > 0 || (qsize > 0 && q != null))
    ensures r == [] && s == [] && Rest(form, u, oldHead) && q == First(u)
  {
    assert s + u == u;
  }

  /** The heads of the two runs, and how their ends show. */
  lemma MergingHeads<K>(form: Form, oldHead: Handle<K>, p: Handle?<K>, psize: nat, q: Handle?<K>, qsize: nat,
                        r: seq<Handle<K>>, s: seq<Handle<K>>, u: seq<Handle<K>>)
    requires Merging(form, oldHead, p, psize, q, qsize, r, s, u)
    ensures (psize == 0 <==> r == []) && (r != [] ==> p == r[0])
    ensures (qsize == 0 || q == null <==> s == []) && (s != [] ==> q == s[0])
  {
    hide Inner, Rest;
    assert s == [] ==> s + u == u;
    assert s != [] ==> (s + u)[0] == s[0];
  }

  lemma MergingFirst<K>(form: Form, oldHead: Handle<K>, p: Handle<K>, psize: nat, q: Handle?<K>, qsize: nat,
                        r: seq<Handle<K>>, s: seq<Handle<K>>, u: seq<Handle<K>>)
    requires Merging(form, oldHead, p, psize, q, qsize, r, s, u) && r != []
    ensures Merging(form, oldHead, Advance(form, p, oldHead), psize - 1, q, qsize, r[1..], s, u)
  {
    hide Rest;
    var r' := r[1..];
    assert forall i :: 0 <= i < |r'| ==> r'[i] == r[i + 1];
    if r' != [] { assert r[0].next == r[1] && r[1] != oldHead; }
  }

  lemma MergingSecond<K>(form: Form, oldHead: Handle<K>, p: Handle?<K>, psize: nat, q: Handle<K>, qsize: nat,
                         r: seq<Handle<K>>, s: seq<Handle<K>>, u: seq<Handle<K>>)
    requires Merging(form, oldHead, p, psize, q, qsize, r, s, u) && s != []
    ensures Merging(form, oldHead, p, psize, Advance(form, q, oldHead), qsize - 1, r, s[1..], u)
  {
    assert (s + u)[0] == s[0] && (s + u)[1..] == s[1..] + u;
    RestTail(form, s + u, oldHead);
    hide Inner, Rest;
  }

  /** Advancing past the first node of the rest. */
  lemma RestTail<K>(form: Form, r: seq<Handle<K>>, oldHead: Handle<K>)
    requires r != [] && Rest(form, r, oldHead)
    ensures Rest(form, r[1..], oldHead) && Advance(form, r[0], oldHead) == First(r[1..])
  {
    var r' := r[1..];
    assert forall i :: 0 <= i < |r'| ==> r'[i] == r[i + 1];
    if r' != [] { assert r[0].next == r[1] && r[1] != oldHead; }
  }

  /** The four-way choice of the next node, which leaves the run it is the head of. */
  method Choose<K>(form: Form, cmp: (Handle<K>, Handle<K>) -> int, oldHead: Handle<K>,
                   p0: Handle?<K>, psize0: nat, q0: Handle?<K>, qsize0: nat, ghost list: Handle?<K>, ghost tail: Handle?<K>,
                   ghost d: seq<Handle<K>>, ghost r: seq<Handle<K>>, ghost s: seq<Handle<K>>, ghost u: seq<Handle<K>>)
    returns (e: Handle<K>, p: Handle?<K>, psize: nat, q: Handle?<K>, qsize: nat, ghost first: bool,
             ghost r': seq<Handle<K>>, ghost s': seq<Handle<K>>)
    requires Merging(form, oldHead, p0, psize0, q0, qsize0, r, s, u)
    requires psize0 > 0 || (qsize0 > 0 && q0 != null)
    requires Apart(d, r, s + u) && Built(form, d, list, tail)
    ensures if first then r != [] && e == r[0] && (s == [] || Le(cmp)(r[0], s[0])) && r' == r[1..] && s' == s
            else s != [] && e == s[0] && (r == [] || !Le(cmp)(r[0], s[0])) && r' == r && s' == s[1..]
    ensures r != [] && s != [] ==> (first <==> cmp(r[0], s[0]) <= 0)
    ensures Merging(form, oldHead, p, psize, q, qsize, r', s', u)
    ensures Apart(d, r', s' + u) && Apart(d + [e], r', s' + u) && Built(form, d, list, tail) && e !in d
  {
    hide Merging, Apart, Built;
    MergingHeads(form, oldHead, p0, psize0, q0, qsize0, r, s, u);
    if r != [] { MergingFirst(form, oldHead, p0, psize0, q0, qsize0, r, s, u); }
    if s != [] { MergingSecond(form, oldHead, p0, psize0, q0, qsize0, r, s, u); }
    p, psize, q, qsize, first := p0, psize0, q0, qsize0, true;
    if psize == 0 {
      e := q; q := Advance(form, q, oldHead); qsize := qsize - 1; first := false;
    } else if qsize == 0 || q == null {
      e := p; p := Advance(form, p, oldHead); psize := psize - 1;
    } else if cmp(p, q) <= 0 {
      e := p; p := Advance(form, p, oldHead); psize := psize - 1;
    } else {
      e := q; q := Advance(form, q, oldHead); qsize := qsize - 1; first := false;
    }
    if first {
      TakeHead(d, r, s + u);
      r', s' := r[1..], s;
    } else {
      TakeSecond(d, r, s + u);
      r', s' := r, s[1..];
      assert (s + u)[0] == s[0] && (s + u)[1..] == s[1..] + u;
    }
  }

  /** Appending the chosen node to the list being built leaves the rest of the two runs alone. */
  method Emit<K>(form: Form, oldHead: Handle<K>, list: Handle?<K>, tail: Handle?<K>, e: Handle<K>,
                 p: Handle?<K>, psize: nat, q: Handle?<K>, qsize: nat,
                 ghost d: seq<Handle<K>>, ghost r: seq<Handle<K>>, ghost s: seq<Handle<K>>, ghost u: seq<Handle<K>>)
    returns (list': Handle?<K>, tail': Handle<K>)
    requires Built(form, d, list, tail) && Apart(d, r, s + u) && e !in d
    requires Merging(form, oldHead, p, psize, q, qsize, r, s, u)
    modifies (if tail == null then {} else {tail})`next, e`prev
    ensures Built(form, d + [e], list', tail') && tail' == e
    ensures Merging(form, oldHead, p, psize, q, qsize, r, s, u)
    ensures form == Singly ==> e.prev == old(e.prev)
  {
    assert tail != null ==> tail in d && tail !in Nodes(r) && tail !in Nodes(s + u);
    list' := list;
    if tail != null {
      tail.next := e;
    } else {
      list' := e;
    }
    if form != Singly {
      e.prev := tail;
    }
    tail' := e;
  }

  /** The inner loop: merge the run r0 of psize nodes at p with the run s0 of at most insize nodes at q. */
  method MergeRuns<K>(form: Form, cmp: (Handle<K>, Handle<K>) -> int, oldHead: Handle<K>, insize: nat,
                      p0: Handle?<K>, psize0: nat, q0: Handle?<K>, list0: Handle?<K>, tail0: Handle?<K>,
                      ghost d0: seq<Handle<K>>, ghost r0: seq<Handle<K>>, ghost s0: seq<Handle<K>>, ghost u: seq<Handle<K>>)
    returns (q: Handle?<K>, list: Handle?<K>, tail: Handle?<K>)
    requires Apart(d0, r0, s0 + u) && Built(form, d0, list0, tail0)
    requires Merging(form, oldHead, p0, psize0, q0, insize, r0, s0, u)
    modifies (if tail0 == null then {} else {tail0})`next, Nodes(r0 + s0)`next, Nodes(r0 + s0)`prev
    ensures Apart(d0 + Merge(Le(cmp), r0, s0), [], u) && Rest(form, u, oldHead) && q == First(u)
    ensures Built(form, d0 + Merge(Le(cmp), r0, s0), list, tail)
    ensures form == Singly ==> forall h :: h in r0 || h in s0 ==> h.prev == old(h.prev)
  {
    hide Merge, Inner, Back, Rest, Merging, Built, Apart, Le;
    ghost var d, r, s := d0, r0, s0;
    var p, psize, qsize := p0, psize0, insize;
    q, list, tail := q0, list0, tail0;
    while psize > 0 || (qsize > 0 && q != null)
      invariant Apart(d, r, s + u) && Built(form, d, list, tail)
      invariant Merging(form, oldHead, p, psize, q, qsize, r, s, u)
      invariant d + Merge(Le(cmp), r, s) == d0 + Merge(Le(cmp), r0, s0)
      invariant forall h :: h in r || h in s ==> h in r0 || h in s0
      invariant tail == tail0 || tail in r0 || tail in s0
      invariant form == Singly ==> forall h :: h in r0 || h in s0 ==> h.prev == old(h.prev)
      decreases |r| + |s|
    {
      var e;
      ghost var first, r', s';
      e, p, psize, q, qsize, first, r', s' := Choose(form, cmp, oldHead, p, psize, q, qsize, list, tail, d, r, s, u);
      if first { MergeFirst(Le(cmp), d, r, s); } else { MergeSecond(Le(cmp), d, r, s); }
      list, tail := Emit(form, oldHead, list, tail, e, p, psize, q, qsize, d, r', s', u);
      d, r, s := d + [e], r', s';
    }
    MergingDone(form, oldHead, p, psize, q, qsize, r, s, u);
    MergeNil(Le(cmp), d);
    assert s + u == u;
  }

  /** The counting loop: q moves past a run of at most insize nodes starting at p. */
  method CountRun<K>(form: Form, oldHead: Handle<K>, p: Handle<K>, insize: nat, ghost r: seq<Handle<K>>)
    returns (psize: nat, q: Handle?<K>)
    requires 0 < insize && r != [] && p == r[0] && Rest(form, r, oldHead)
    ensures psize == RunEnd(|r|, insize) && q == First(r[psize..])
  {
    q, psize := p, 0;
    for i := 0 to insize
      invariant i == psize <= |r| && (i > 0 ==> psize < |r|) && q == First(r[psize..]) && q != null
    {
      assert q == r[psize];
      psize := psize + 1;
      q := Advance(form, q, oldHead);
      assert psize < |r| ==> r[psize..][0] == r[psize];
      if q == null { break; }
    }
  }

  /** The two runs found at the head of the rest, in the form the inner loop expects. */
  lemma TwoRuns<K>(form: Form, oldHead: Handle<K>, insize: nat, p: Handle<K>, psize: nat, q: Handle?<K>,
                   d: seq<Handle<K>>, r: seq<Handle<K>>, p1: seq<Handle<K>>, q1: seq<Handle<K>>, u: seq<Handle<K>>)
    requires 0 < insize && r != [] && p == r[0] && Apart(d, [], r) && Rest(form, r, oldHead)
    requires psize == RunEnd(|r|, insize) && q == First(r[psize..]) && Split(insize, r, p1, q1, u)
    ensures Apart(d, p1, q1 + u) && Merging(form, oldHead, p, psize, q, insize, p1, q1, u)
    ensures Nodes(p1) + Nodes(q1) + Nodes(u) == Nodes(r)
  {
    hide Apart, Rest, Inner, Nodes;
    SplitParts(insize, r, p1, q1, u);
    hide Split;
    NodesConcat(p1, q1 + u);
    NodesConcat(q1, u);
    ApartSplit(d, p1, q1 + u);
    RestSplit(form, oldHead, p1, q1 + u);
  }

  lemma NodesConcat<K>(p: seq<Handle<K>>, q: seq<Handle<K>>)
    ensures Nodes(p + q) == Nodes(p) + Nodes(q)
  {
  }

  lemma ApartSplit<K>(d: seq<Handle<K>>, p: seq<Handle<K>>, rest: seq<Handle<K>>)
    requires Apart(d, [], p + rest)
    ensures Apart(d, p, rest)
  {
    var r := p + rest;
    forall i, j | 0 <= i < |p| && 0 <= j < |rest| ensures p[i] != rest[j] {
      assert r[i] == p[i] && r[|p| + j] == rest[j];
    }
    assert forall i, j :: 0 <= i < j < |p| ==> r[i] == p[i] && r[j] == p[j];
    forall i, j | 0 <= i < j < |rest| ensures rest[i] != rest[j] {
      assert r[|p| + i] == rest[i] && r[|p| + j] == rest[j];
    }
  }

  lemma RestSplit<K>(form: Form, oldHead: Handle<K>, p: seq<Handle<K>>, rest: seq<Handle<K>>)
    requires p != [] && Rest(form, p + rest, oldHead)
    ensures Inner(p) && (forall i :: 0 < i < |p| ==> p[i] != oldHead)
    ensures Rest(form, rest, oldHead) && oldHead !in rest
  {
    var r := p + rest;
    assert forall i :: 0 <= i < |p| ==> r[i] == p[i];
    forall i | 0 <= i < |rest|
      ensures rest[i] != oldHead && (i < |rest| - 1 ==> rest[i].next == rest[i + 1])
    {
      assert r[|p| + i] == rest[i] && (i < |rest| - 1 ==> r[|p| + i + 1] == rest[i + 1]);
    }
  }

  lemma NodesOfMerge<K>(le: (Handle<K>, Handle<K>) -> bool, d: seq<Handle<K>>, p: seq<Handle<K>>, q: seq<Handle<K>>)
    ensures Nodes(d + Merge(le, p, q)) == Nodes(d) + Nodes(p) + Nodes(q)
    ensures |Merge(le, p, q)| == |p| + |q|
  {
    var m := Merge(le, p, q);
    MergePermutes(le, p, q);
    forall h | h in m ensures h in p || h in q { assert h in multiset(m); }
    forall h | h in p || h in q ensures h in m { assert h in multiset(p) + multiset(q); }
  }

  /** How far a pass over s has got: d is what it built, in the given number of merges, and r is still to be read. */
  ghost predicate Passed<K>(le: (Handle<K>, Handle<K>) -> bool, insize: nat, s: seq<Handle<K>>, d: seq<Handle<K>>,
                            r: seq<Handle<K>>, merges: nat)
    requires 0 < insize
  {
    d + Pass(le, r, insize) == Pass(le, s, insize)
    && |d| + |r| == |s| && Nodes(d) + Nodes(r) == Nodes(s) && (merges == 0 <==> d == [])
    && (merges == 1 ==> |d| == RunEnd(|s|, 2 * insize)) && (merges > 1 ==> |s| > 2 * insize)
  }

  lemma PassedNone<K>(le: (Handle<K>, Handle<K>) -> bool, insize: nat, s: seq<Handle<K>>)
    requires 0 < insize
    ensures Passed(le, insize, s, [], s, 0)
  {
    hide Pass, Merge;
    assert [] + Pass(le, s, insize) == Pass(le, s, insize);
  }

  /** One merge more. */
  lemma PassedMore<K>(le: (Handle<K>, Handle<K>) -> bool, insize: nat, s: seq<Handle<K>>, d: seq<Handle<K>>, r: seq<Handle<K>>,
                      merges: nat, p1: seq<Handle<K>>, q1: seq<Handle<K>>, u: seq<Handle<K>>)
    requires 0 < insize && r != [] && Passed(le, insize, s, d, r, merges) && Split(insize, r, p1, q1, u)
    ensures Passed(le, insize, s, d + Merge(le, p1, q1), u, merges + 1)
    ensures |u| < |r|
  {
    hide Merge, Pass, Nodes;
    SplitParts(insize, r, p1, q1, u);
    PassUnfold(le, insize, d, r, p1, q1, u);
    hide Split;
    NodesOfMerge(le, d, p1, q1);
    NodesOfRuns(r, p1, q1, u);
    RunsLength(insize, r, |p1|);
  }

  lemma RunsLength<T>(insize: nat, r: seq<T>, n: nat)
    requires 0 < insize && r != [] && n == RunEnd(|r|, insize)
    ensures n > 0
  {
  }

  lemma NodesOfRuns<K>(r: seq<Handle<K>>, p1: seq<Handle<K>>, q1: seq<Handle<K>>, u: seq<Handle<K>>)
    requires r == p1 + (q1 + u)
    ensures Nodes(r) == Nodes(p1) + Nodes(q1) + Nodes(u) && Nodes(p1 + q1) == Nodes(p1) + Nodes(q1)
  {
    hide Nodes;
    NodesConcat(p1, q1 + u);
    NodesConcat(q1, u);
    NodesConcat(p1, q1);
  }

  /** The next two runs of the rest are counted out and merged behind what was built. */
  method MergeNext<K>(form: Form, cmp: (Handle<K>, Handle<K>) -> int, oldHead: Handle<K>, insize: nat,
                      p0: Handle<K>, list0: Handle?<K>, tail0: Handle?<K>, ghost d: seq<Handle<K>>, ghost r: seq<Handle<K>>)
    returns (p: Handle?<K>, list: Handle?<K>, tail: Handle?<K>,
             ghost p1: seq<Handle<K>>, ghost q1: seq<Handle<K>>, ghost u: seq<Handle<K>>)
    requires 0 < insize && r != [] && p0 == r[0]
    requires Apart(d, [], r) && Rest(form, r, oldHead) && Built(form, d, list0, tail0)
    modifies (if tail0 == null then {} else {tail0})`next, Nodes(r)`next, Nodes(r)`prev
    ensures Split(insize, r, p1, q1, u) && Apart(d + Merge(Le(cmp), p1, q1), [], u)
    ensures Rest(form, u, oldHead) && p == First(u) && Built(form, d + Merge(Le(cmp), p1, q1), list, tail)
    ensures form == Singly ==> forall h :: h in r ==> h.prev == old(h.prev)
  {
    hide Merge, Rest, Apart, Le, Merging, Distinct, Split;
    var psize, q := CountRun(form, oldHead, p0, insize, r);
    assert Built(form, d, list0, tail0);
    hide Built, Inner, Back;
    p1, q1, u := FirstRuns(insize, r);
    TwoRuns(form, oldHead, insize, p0, psize, q, d, r, p1, q1, u);
    p, list, tail := MergeRuns(form, cmp, oldHead, insize, p0, psize, q, list0, tail0, d, p1, q1, u);
  }

  /** One pass over the list, up to the last merge. */
  method SortPass<K>(form: Form, cmp: (Handle<K>, Handle<K>) -> int, p0: Handle<K>, insize: nat, ghost s: seq<Handle<K>>)
    returns (list: Handle<K>, tail: Handle<K>, nmerges: nat)
    requires 0 < insize && s != [] && p0 == s[0] && Distinct(s) && Rest(form, s, p0)
    modifies Nodes(s)`next, Nodes(s)`prev
    ensures Built(form, Pass(Le(cmp), s, insize), list, tail)
    ensures Distinct(Pass(Le(cmp), s, insize)) && Nodes(Pass(Le(cmp), s, insize)) == Nodes(s)
    ensures nmerges <= 1 <==> |s| <= 2 * insize
    ensures form == Singly ==> forall h :: h in s ==> h.prev == old(h.prev)
  {
    hide Merge, Pass, Inner, Back, Rest, Apart, Built, Le, Merging, Distinct, Passed, Split;
    var p: Handle?<K>, l: Handle?<K>, t: Handle?<K> := p0, null, null;
    ghost var d, r := [], s;
    PassStart(form, s);
    PassedNone(Le(cmp), insize, s);
    nmerges := 0;
    while p != null
      invariant Apart(d, [], r) && Rest(form, r, p0) && p == First(r) && Built(form, d, l, t)
      invariant Passed(Le(cmp), insize, s, d, r, nmerges) && Nodes(d) + Nodes(r) == Nodes(s) && (t != null ==> t in Nodes(d))
      invariant form == Singly ==> forall h :: h in s ==> h.prev == old(h.prev)
      decreases |r|
    {
      nmerges := nmerges + 1;
      ghost var p1, q1, u;
      p, l, t, p1, q1, u := MergeNext(form, cmp, p0, insize, p, l, t, d, r);
      PassedMore(Le(cmp), insize, s, d, r, nmerges - 1, p1, q1, u);
      d, r := d + Merge(Le(cmp), p1, q1), u;
      BuiltEnds(form, d, l, t);
      PassedNodes(Le(cmp), insize, s, d, r, nmerges);
    }
    PassEnd(Le(cmp), insize, d, r, s, l, t, form, nmerges);
    list, tail := l, t;
  }

  /** The two runs at the head of the rest, and what follows them. */
  lemma FirstRuns<K>(insize: nat, r: seq<Handle<K>>)
    returns (p1: seq<Handle<K>>, q1: seq<Handle<K>>, u: seq<Handle<K>>)
    ensures Split(insize, r, p1, q1, u)
  {
    var rest := r[RunEnd(|r|, insize)..];
    p1, q1, u := r[..RunEnd(|r|, insize)], rest[..RunEnd(|rest|, insize)], rest[RunEnd(|rest|, insize)..];
  }

  lemma PassedNodes<K>(le: (Handle<K>, Handle<K>) -> bool, insize: nat, s: seq<Handle<K>>, d: seq<Handle<K>>,
                       r: seq<Handle<K>>, merges: nat)
    requires 0 < insize && Passed(le, insize, s, d, r, merges)
    ensures Nodes(d) + Nodes(r) == Nodes(s)
  {
  }

  lemma PassStart<K>(form: Form, s: seq<Handle<K>>)
    requires Distinct(s)
    ensures Apart<K>([], [], s) && Built<K>(form, [], null, null)
  {
  }

  lemma BuiltEnds<K>(form: Form, d: seq<Handle<K>>, list: Handle?<K>, tail: Handle?<K>)
    requires Built(form, d, list, tail)
    ensures tail != null ==> tail in Nodes(d)
    ensures d != [] ==> list == d[0] && tail == d[|d| - 1] && list in Nodes(d)
  {
  }

  lemma PassEnd<K>(le: (Handle<K>, Handle<K>) -> bool, insize: nat, d: seq<Handle<K>>, r: seq<Handle<K>>, s: seq<Handle<K>>,
                   list: Handle?<K>, tail: Handle?<K>, form: Form, merges: nat)
    requires 0 < insize && s != [] && First(r) == null && Apart(d, [], r)
    requires Passed(le, insize, s, d, r, merges) && Built(form, d, list, tail)
    ensures d == Pass(le, s, insize) && Distinct(d) && Nodes(d) == Nodes(s) && list != null && tail != null
    ensures merges <= 1 <==> |s| <= 2 * insize
  {
    hide Inner, Back, Merge;
    assert r == [];
    PassNil(le, insize);
    hide Pass;
    assert d + [] == d;
  }

  /** The end of a pass: the last node is closed off in the way of the form. */
  method ClosePass<K>(form: Form, list: Handle<K>, tail: Handle<K>, ghost d: seq<Handle<K>>)
    requires Built(form, d, list, tail) && Distinct(d)
    modifies list`prev, tail`next
    ensures IsList(form, d)
    ensures form == Singly ==> list.prev == old(list.prev)
  {
    if form == Doubly || form == Circular {
      list.prev := tail;
    }
    tail.next := if form == Circular then list else null;
  }

  lemma ListRest<K>(form: Form, s: seq<Handle<K>>)
    requires IsList(form, s) && s != []
    ensures Distinct(s) && Rest(form, s, s[0])
  {
  }

  lemma ListDistinct<K>(form: Form, s: seq<Handle<K>>)
    requires IsList(form, s)
    ensures Distinct(s)
  {
  }

  /** A pass with the statements that follow it. */
  method SortRound<K>(form: Form, cmp: (Handle<K>, Handle<K>) -> int, list0: Handle<K>, insize: nat, ghost s: seq<Handle<K>>)
    returns (list: Handle<K>, tail: Handle<K>, nmerges: nat)
    requires 0 < insize && s != [] && IsList(form, s) && list0 == s[0]
    modifies Nodes(s)`next, Nodes(s)`prev
    ensures var t := Pass(Le(cmp), s, insize);
            t != [] && |t| == |s| && IsList(form, t) && Nodes(t) == Nodes(s) && list == t[0] && tail == t[|t| - 1]
    ensures nmerges <= 1 <==> |s| <= 2 * insize
    ensures form == Singly ==> forall h :: h in s ==> h.prev == old(h.prev)
  {
    hide Pass, Inner, Back, Le, Distinct, IsList, Rest, Built;
    ListRest(form, s);
    list, tail, nmerges := SortPass(form, cmp, list0, insize, s);
    ghost var t := Pass(Le(cmp), s, insize);
    PassLength(Le(cmp), s, insize);
    BuiltEnds(form, t, list, tail);
    ClosePass(form, list, tail, t);
  }

  /** The sort macros. The result list holds the nodes of s in the order of the bottom-up merge sort,
      which is the stable sort when the comparison is a total preorder. */
  method SortList<K>(form: Form, list0: Handle?<K>, cmp: (Handle<K>, Handle<K>) -> int, ghost s: seq<Handle<K>>)
    returns (list: Handle?<K>, tail: Handle?<K>)
    requires IsList(form, s) && list0 == First(s)
    modifies Nodes(s)`next, Nodes(s)`prev
    ensures var t := Sort(Le(cmp), s, 1);
            IsList(form, t) && Nodes(t) == Nodes(s) && list == First(t) && tail == (if t == [] then null else t[|t| - 1])
    ensures TotalPreorder(Le(cmp), s) ==> IsStableSort(Le(cmp), s, Sort(Le(cmp), s, 1))
    ensures SortedBy(cmp, s, Sort(Le(cmp), s, 1))
    ensures form == Singly ==> forall h :: h in s ==> h.prev == old(h.prev)
  {
    list, tail := list0, null;
    hide Pass, IsList, Sort, Le, TotalPreorder, IsStableSort, SortedBy, Distinct;
    ListDistinct(form, s);
    SortSorts(cmp, s);
    if TotalPreorder(Le(cmp), s) { SortIsStable(Le(cmp), s); }
    if list == null {
      SortUnfold(Le(cmp), s, 1);
      return;
    }
    var insize := 1;
    var looping := true;
    ghost var t := s;
    while looping
      invariant 0 < insize && t != [] && |t| == |s| && Nodes(t) == Nodes(s) && IsList(form, t) && list == t[0]
      invariant if looping then Sort(Le(cmp), t, insize) == Sort(Le(cmp), s, 1)
                else t == Sort(Le(cmp), s, 1) && tail == t[|t| - 1]
      invariant form == Singly ==> forall h :: h in s ==> h.prev == old(h.prev)
      decreases looping, |s| - insize
    {
      SortUnfold(Le(cmp), t, insize);
      var nmerges;
      list, tail, nmerges := SortRound(form, cmp, list, insize, t);
      t := Pass(Le(cmp), t, insize);
      if nmerges <= 1 {
        looping := false;
      }
      insize := insize * 2;
    }
  }

  lemma SortUnfold<T>(le: (T, T) -> bool, s: seq<T>, size: nat)
    requires 0 < size
    ensures Sort(le, s, size) == if |s| <= 2 * size then Pass(le, s, size) else Sort(le, Pass(le, s, size), 2 * size)
    ensures |Pass(le, s, size)| == |s|
  {
  }
}
