/** Singly linked lists with a tail pointer, as core/event.c and core/net_http.c build them. */
module Links {
  class Cell<T> {
    const value: T
    var next: Cell?<T>

    constructor (value: T)
      ensures this.value == value && next == null
    {
      this.value, next := value, null;
    }
  }

  /** The i-th cell of a list, or the null that ends it. */
  function Nth<T>(s: seq<Cell<T>>, i: nat): Cell?<T> {
    if i < |s| then s[i] else null
  }

  ghost predicate Linked<T>(s: seq<Cell<T>>)
    reads s
  {
    forall i {:trigger s[i].next} :: 0 <= i < |s| ==> s[i].next == Nth(s, i + 1)
  }

  lemma NotLast<T>(s: seq<Cell<T>>)
    requires Linked(s)
    ensures forall i :: 0 <= i < |s| - 1 ==> s[i] != s[|s| - 1]
  {
    forall i | 0 <= i < |s| - 1 ensures s[i] != s[|s| - 1] {
      assert s[i].next == Nth(s, i + 1) && s[|s| - 1].next == Nth(s, |s|);
    }
  }

  lemma LinkedTail<T>(s: seq<Cell<T>>)
    requires Linked(s) && s != []
    ensures Linked(s[1..]) && s[0].next == Nth(s[1..], 0) && Values(s[1..]) == Values(s)[1..]
  {
    forall i {:trigger s[1..][i].next} | 0 <= i < |s[1..]| ensures s[1..][i].next == Nth(s[1..], i + 1) {
      assert s[1..][i] == s[i + 1] && s[i + 1].next == Nth(s, i + 2);
    }
  }

  function Values<T>(s: seq<Cell<T>>): (v: seq<T>)
    ensures |v| == |s| && forall i :: 0 <= i < |s| ==> v[i] == s[i].value
  {
    if s == [] then [] else [s[0].value] + Values(s[1..])
  }

  lemma ValuesMore<T>(s: seq<Cell<T>>, c: Cell<T>)
    ensures Values(s + [c]) == Values(s) + [c.value]
  {
  }
}
