/** The pool of idle server connections: a table from endpoints to lists of connections (core/conn.c). */
module ConnPools {
  import opened Bytes
  import opened Conns

  /** A connection as the pool sees it: its endpoint, its entry in the pool, and its reference count. */
  class Idle {
    const ep: nat
    var apool: Ent?
    var refs: int
    var stat: Stat

    constructor (ep: nat)
      ensures this.ep == ep && apool == null && refs == 1
    {
      this.ep, apool, refs, stat := ep, null, 1, Used;
    }
  }

  /** struct conn_pool_ent: an entry of a list, or the empty one at its head. */
  class Ent {
    const conn: Idle?
    ghost const owner: nat
    var prev: Ent?
    var next: Ent?

    constructor (conn: Idle?, ghost owner: nat)
      ensures this.conn == conn && this.owner == owner && prev == null && next == null
    {
      this.conn, this.owner, prev, next := conn, owner, null, null;
    }
  }

  function At(c: seq<Ent>, i: int): Ent? {
    if 0 <= i < |c| then c[i] else null
  }

  /** A list with its head at index 0. */
  ghost predicate IsList(c: seq<Ent>)
    reads c
  {
    c != [] && forall i {:trigger c[i].next} {:trigger c[i].prev} ::
      0 <= i < |c| ==> c[i].next == At(c, i + 1) && c[i].prev == At(c, i - 1)
  }

  lemma {:induction false} ListDistinct(c: seq<Ent>, i: nat, j: nat)
    requires IsList(c) && i < j < |c|
    ensures c[i] != c[j]
    decreases i
  {
    assert c[i].prev == At(c, i - 1) && c[j].prev == At(c, j - 1);
    if i > 0 { ListDistinct(c, i - 1, j - 1); }
  }

  lemma AllDistinct(c: seq<Ent>)
    requires IsList(c)
    ensures forall i, j :: 0 <= i < j < |c| ==> c[i] != c[j]
  {
    forall i, j | 0 <= i < j < |c| ensures c[i] != c[j] { ListDistinct(c, i, j); }
  }

  /** A new entry right after the head. */
  method Push(head: Ent, e: Ent, ghost s: seq<Ent>)
    requires IsList([head] + s) && e != head && e !in s && e.next == null && e.prev == null
    modifies head`next, e`next, e`prev, Opt(head.next)`prev
    ensures IsList([head] + ([e] + s))
  {
    ghost var c := [head] + s;
    assert c[0].next == At(c, 1);
    e.next := head.next;
    e.prev := head;
    if head.next != null {
      head.next.prev := e;
    }
    head.next := e;
    ghost var d := [head] + ([e] + s);
    forall i {:trigger d[i].next} | 0 <= i < |d| ensures d[i].next == At(d, i + 1) && d[i].prev == At(d, i - 1) {
      if i >= 2 { assert d[i] == c[i - 1]; }
    }
  }

  function Opt(e: Ent?): set<Ent> { if e == null then {} else {e} }

  /** An entry is taken out, wherever it is behind the head. */
  method Unlink(e: Ent, ghost c: seq<Ent>, ghost i: nat)
    requires IsList(c) && 0 < i < |c| && c[i] == e
    modifies Opt(e.prev)`next, Opt(e.next)`prev
    ensures IsList(Without(c, i))
  {
    AllDistinct(c);
    assert c[i].prev == c[i - 1] && c[i].next == At(c, i + 1);
    e.prev.next := e.next;
    if e.next != null {
      e.next.prev := e.prev;
    }
    WithoutAt(c, i);
    ghost var d := Without(c, i);
    assert forall k {:trigger c[k].next} :: 0 <= k < |c| && k != i - 1 && k != i ==> c[k].next == At(c, k + 1);
    assert forall k {:trigger c[k].prev} :: 0 <= k < |c| && k != i + 1 && k != i ==> c[k].prev == At(c, k - 1);
    forall k {:trigger d[k].next} | 0 <= k < |d| ensures d[k].next == At(d, k + 1) && d[k].prev == At(d, k - 1) {
      if k < i - 1 { assert d[k] == c[k]; }
      else if k == i - 1 { assert d[k] == c[i - 1] && d[k].next == At(c, i + 1) == At(d, i); }
      else { assert d[k] == c[k + 1]; }
    }
  }

  /** The pool. */
  class Pool {
    var table: map<nat, Ent>
    // The entries of each list, behind its head; all heads and entries; and all pooled connections.
    ghost var lists: map<nat, seq<Ent>>
    ghost var ents: set<Ent>
    ghost var conns: set<Idle>
    // The endpoint whose list the operation under way changes.
    ghost var touched: nat

    /** The list of an endpoint: its entries belong to connections to that endpoint, and those know them. */
    ghost predicate ListOk(ep: nat)
      reads this`table, this`lists, this`ents, this`conns, ents, conns
      requires ep in table && ep in lists
    {
      Mine(table[ep], ep) && (forall e :: e in lists[ep] ==> Mine(e, ep) && HoldsConn(e, ep))
      && (forall e :: e in [table[ep]] + lists[ep] ==> e in ents) && IsList([table[ep]] + lists[ep])
    }

    ghost predicate Mine(e: Ent, ep: nat)
      reads this`ents
    {
      e in ents && e.owner == ep
    }

    ghost predicate HoldsConn(e: Ent, ep: nat)
      reads this`conns, conns
    {
      e.conn != null && e.conn in conns && e.conn.ep == ep && e.conn.apool == e
    }

    /** A pooled connection is in the list of its endpoint, through its entry. */
    ghost predicate Pooled(x: Idle)
      reads this`lists, x
    {
      x.ep in lists && x.apool != null && x.apool in lists[x.ep] && x.apool.conn == x
    }

    ghost predicate Valid()
      reads this`table, this`lists, this`ents, this`conns, ents, conns
    {
      lists.Keys == table.Keys && (forall ep :: ep in table ==> ListOk(ep)) && (forall x :: x in conns ==> Pooled(x))
    }

    /** The idle connections to an endpoint, the last one added first. */
    ghost function Stack(ep: nat): seq<Ent>
      reads this`lists
    {
      if ep in lists then lists[ep] else []
    }

    /** Every pooled connection sits in exactly one place: one entry of the list of its own endpoint. */
    lemma ExactlyOnce(x: Idle)
      requires Valid() && x in conns
      ensures exists i :: 0 <= i < |Stack(x.ep)| && Stack(x.ep)[i] == x.apool
      ensures forall i, j :: 0 <= i < j < |Stack(x.ep)| ==> Stack(x.ep)[i] != Stack(x.ep)[j]
      ensures forall ep, e :: ep in lists && e in Stack(ep) && e.conn == x ==> ep == x.ep && e == x.apool
    {
      assert Pooled(x) && ListOk(x.ep);
      var s, c := Stack(x.ep), [table[x.ep]] + Stack(x.ep);
      AllDistinct(c);
      forall i, j | 0 <= i < j < |s| ensures s[i] != s[j] {
        assert s[i] == c[i + 1] && s[j] == c[j + 1];
      }
      forall ep, e | ep in lists && e in Stack(ep) && e.conn == x ensures ep == x.ep && e == x.apool {
        assert ListOk(ep) && HoldsConn(e, ep);
      }
    }

    constructor ()
      ensures Valid() && conns == {} && forall ep :: Stack(ep) == []
    {
      table, lists, ents, conns, touched := map[], map[], {}, {}, 0;
    }

    /** Outside the touched list nothing changed. */
    twostate predicate OthersSame()
      reads this, ents, conns
    {
      old(ents) <= ents && lists.Keys == table.Keys
      && (forall ep :: ep != touched ==> (ep in table <==> ep in old(table)))
      && (forall ep :: ep in table && ep in old(table) && ep in old(lists) && ep != touched ==>
            table[ep] == old(table)[ep] && lists[ep] == old(lists)[ep])
      && NodesSame()
      && (forall x :: x in old(conns) && x.ep != touched ==> x in conns && x.apool == old(x.apool))
      && (forall x :: x in conns && x.ep != touched ==> x in old(conns))
    }

    twostate predicate NodesSame()
      reads this, ents
    {
      forall e :: e in old(ents) && e in ents && e.owner != touched ==> e.next == old(e.next) && e.prev == old(e.prev)
    }

    twostate lemma OthersOk()
      requires old(Valid()) && OthersSame()
      ensures forall ep :: ep in table && ep != touched ==> ListOk(ep)
      ensures forall x :: x in conns && x.ep != touched ==> Pooled(x)
    {
      forall ep | ep in table && ep != touched ensures ListOk(ep) {
        assert old(ListOk(ep));
        var c := [table[ep]] + lists[ep];
        assert forall e :: e in c ==> e in old(ents) && e.owner == ep;
        forall i {:trigger c[i].next} | 0 <= i < |c| ensures c[i].next == At(c, i + 1) && c[i].prev == At(c, i - 1) {
          assert c[i] in c && old(c[i].next) == At(c, i + 1);
        }
      }
      forall x | x in conns && x.ep != touched ensures Pooled(x) {
        assert old(Pooled(x));
      }
    }

    /** The list of the touched endpoint becomes s. */
    ghost method SetList(s: seq<Ent>, more: set<Ent>, who: set<Idle>)
      requires lists.Keys + {touched} == table.Keys
      modifies this`lists, this`ents, this`conns
      ensures lists == old(lists)[touched := s] && ents == old(ents) + more && conns == who
    {
      lists, ents, conns := lists[touched := s], ents + more, who;
    }

    /** conn_addrpool_add for an endpoint that has no list yet. */
    method LinkFirst(x: Idle, elem: Ent)
      requires Valid() && x !in conns && elem !in ents && elem.conn == x && elem.owner == x.ep && x.ep !in table
      requires elem.next == null && elem.prev == null && x.apool == elem && touched == x.ep
      modifies this`table, this`lists, this`ents, this`conns, elem`next, elem`prev
      ensures OthersSame() && conns == old(conns) + {x}
      ensures x.ep in table && ListOk(x.ep) && Stack(x.ep) == [elem]
    {
      var head := new Ent(null, x.ep);
      elem.prev := head;
      head.next := elem;
      table := table[x.ep := head];
      SetList([elem], {head, elem}, conns + {x});
    }

    /** conn_addrpool_add for an endpoint that has one. */
    method LinkNext(x: Idle, elem: Ent)
      requires Valid() && x !in conns && elem !in ents && elem.conn == x && elem.owner == x.ep && x.ep in table
      requires elem.next == null && elem.prev == null && x.apool == elem && touched == x.ep
      modifies this`lists, this`ents, this`conns, ents`next, ents`prev, elem`next, elem`prev
      ensures OthersSame() && conns == old(conns) + {x}
      ensures ListOk(x.ep) && Stack(x.ep) == [elem] + old(Stack(x.ep))
    {
      ghost var s := Stack(x.ep);
      assert ListOk(x.ep);
      Top(x.ep);
      Push(table[x.ep], elem, s);
      SetList([elem] + s, {elem}, conns + {x});
    }

    /** conn_addrpool_add */
    method Add(x: Idle)
      requires Valid() && x !in conns
      modifies this, x, ents`next, ents`prev
      ensures Valid() && conns == old(conns) + {x}
      ensures x.apool != null && fresh(x.apool) && Stack(x.ep) == [x.apool] + old(Stack(x.ep))
      ensures forall ep :: ep != x.ep ==> Stack(ep) == old(Stack(ep))
      ensures x.refs == old(x.refs) + 1 && x.stat == Free
    {
      touched := x.ep;
      var elem := new Ent(x, x.ep);
      x.refs := x.refs + 1;
      x.stat := Free;
      x.apool := elem;
      assert Valid();
      Enter(x, elem);
    }

    method Enter(x: Idle, elem: Ent)
      requires Valid() && x !in conns && elem !in ents && elem.conn == x && elem.owner == x.ep
      requires elem.next == null && elem.prev == null && x.apool == elem && touched == x.ep
      modifies this`table, this`lists, this`ents, this`conns, ents`next, ents`prev, elem`next, elem`prev
      ensures Valid() && conns == old(conns) + {x}
      ensures Stack(x.ep) == [elem] + old(Stack(x.ep))
      ensures forall ep :: ep != x.ep ==> Stack(ep) == old(Stack(ep))
    {
      assert forall y :: y in conns ==> Pooled(y);
      if x.ep !in table {
        LinkFirst(x, elem);
      } else {
        LinkNext(x, elem);
      }
      OthersOk();
    }

    /** The i-th entry of the touched list is unlinked. */
    method UnlinkEntry(e: Ent, ghost i: nat)
      requires touched in table && touched in lists && ListOk(touched) && i < |lists[touched]| && lists[touched][i] == e
      modifies ents`next, ents`prev
      ensures IsList([table[touched]] + Without(lists[touched], i)) && NodesSame()
      ensures e !in Without(lists[touched], i) && forall e :: e in Without(lists[touched], i) ==> e in lists[touched]
    {
      hide Without, IsList;
      Neighbours(table[touched], lists[touched], i);
      assert forall e :: e in lists[touched] ==> Mine(e, touched);
      Unlink(e, [table[touched]] + lists[touched], i + 1);
    }

    /** The entry of x, the i-th of its list, leaves the pool. */
    method Leave(x: Idle, ghost i: nat)
      requires Valid() && x in conns && x.apool != null && touched == x.ep
      requires x.ep in lists && i < |lists[x.ep]| && lists[x.ep][i] == x.apool
      modifies this`lists, this`ents, this`conns, ents`next, ents`prev
      ensures OthersSame() && conns == old(conns) - {x}
      ensures x.ep in table && ListOk(x.ep) && Stack(x.ep) == Without(old(Stack(x.ep)), i)
      ensures x.apool !in Stack(x.ep)
    {
      hide Without;
      assert ListOk(x.ep);
      UnlinkEntry(x.apool, i);
      SetList(Without(lists[x.ep], i), {}, conns - {x});
    }

    /** conn_addrpool_del: a connection leaves the pool from wherever it is in its list. Its apool is left as it is. */
    method Del(x: Idle)
      requires Valid() && (x.apool == null || x in conns)
      modifies this, x`refs, ents`next, ents`prev
      ensures Valid() && x.apool == old(x.apool)
      ensures x.apool == null ==> conns == old(conns) && x.refs == old(x.refs) && forall ep :: Stack(ep) == old(Stack(ep))
      ensures x.apool != null ==> conns == old(conns) - {x} && x.refs == old(x.refs) - 1
      ensures x.apool != null ==> exists i :: 0 <= i < |old(Stack(x.ep))| && old(Stack(x.ep))[i] == x.apool
                                              && Stack(x.ep) == Without(old(Stack(x.ep)), i)
      ensures x.apool != null ==> forall ep :: ep != x.ep ==> Stack(ep) == old(Stack(ep))
    {
      hide Without, ListOk, IsList;
      if x.apool == null { return; }
      touched := x.ep;
      assert Pooled(x);
      ghost var i :| 0 <= i < |lists[x.ep]| && lists[x.ep][i] == x.apool;
      Remove(x, i);
      x.refs := x.refs - 1;
    }

    method Remove(x: Idle, ghost i: nat)
      requires Valid() && x in conns && x.apool != null && touched == x.ep
      requires x.ep in lists && i < |lists[x.ep]| && lists[x.ep][i] == x.apool
      modifies this`lists, this`ents, this`conns, ents`next, ents`prev
      ensures Valid() && conns == old(conns) - {x} && Stack(x.ep) == Without(old(Stack(x.ep)), i)
      ensures forall ep :: ep != x.ep ==> Stack(ep) == old(Stack(ep))
    {
      ghost var s := lists[x.ep];
      assert forall y :: y in conns ==> Pooled(y);
      Leave(x, i);
      OthersOk();
      forall y | y in conns && y.ep == x.ep ensures Pooled(y) {
        StaysIn(s, i, y.apool);
      }
    }

    /** What the head of a list points to. */
    lemma Top(ep: nat)
      requires Valid() && ep in table
      ensures ep in lists && table[ep].next == At(lists[ep], 0)
      ensures lists[ep] != [] ==> HoldsConn(lists[ep][0], ep)
    {
      assert ListOk(ep);
      var c := [table[ep]] + lists[ep];
      assert c[0].next == At(c, 1);
    }

    /** conn_addrpool_try_get_and_del: the connection added last to the endpoint's list, if there is one. */
    method TryGet(ep: nat) returns (x: Idle?)
      requires Valid()
      modifies this, ents`next, ents`prev, conns`apool
      ensures Valid()
      ensures old(Stack(ep)) == [] ==> x == null && conns == old(conns) && Stack(ep) == []
      ensures old(Stack(ep)) != [] ==> x == old(Stack(ep)[0].conn) && x != null && x in old(conns) && x.ep == ep
      ensures old(Stack(ep)) != [] ==> x != null && x.apool == null && conns == old(conns) - {x} && Stack(ep) == old(Stack(ep))[1..]
      ensures forall p :: p != ep ==> Stack(p) == old(Stack(p))
      ensures forall y :: y in old(conns) && y != x ==> y.apool == old(y.apool)
    {
      hide ListOk, Pooled;
      if ep !in table { return null; }
      Top(ep);
      var elem := table[ep].next;
      if elem == null { return null; }
      touched := ep;
      x := elem.conn;
      Remove(x, 0);
      x.apool := null;
    }
  }

  /** The neighbours of an entry, and what is left without it. */
  lemma Neighbours(h: Ent, s: seq<Ent>, i: nat)
    requires IsList([h] + s) && i < |s|
    ensures s[i].prev != null && (s[i].prev == h || s[i].prev in s) && (s[i].next == null || s[i].next in s)
    ensures Without([h] + s, i + 1) == [h] + Without(s, i)
    ensures s[i] !in Without(s, i) && forall e :: e in Without(s, i) ==> e in s
  {
    var c := [h] + s;
    AllDistinct(c);
    assert c[i + 1] == s[i] && c[i + 1].prev == At(c, i) && c[i + 1].next == At(c, i + 2);
    if i + 1 < |s| { assert c[i + 2] == s[i + 1]; }
    if i > 0 { assert c[i] == s[i - 1]; }
    WithoutAt(c, i + 1);
    WithoutAt(s, i);
    forall k | 0 <= k < |Without(s, i)| ensures Without(s, i)[k] != s[i] && Without(s, i)[k] in s {
      var j := if k < i then k else k + 1;
      assert s[j] == c[j + 1];
    }
  }

  lemma StaysIn(s: seq<Ent>, i: nat, e: Ent)
    requires i < |s| && e in s && e != s[i]
    ensures e in Without(s, i)
  {
    WithoutAt(s, i);
    var k :| 0 <= k < |s| && s[k] == e;
    assert Without(s, i)[if k < i then k else k - 1] == e;
  }
}
