/** The event queue and its dispatch loop (core/event.c). */
module Events {
  import opened Links

  // A `void*` that is handed on as it is.
  type Data = nat

  /** A function pointer, and the data that it is registered with. */
  datatype Handler = Handler(fn: nat, data0: Data)

  /** What a handler may do to the event module while it runs. */
  datatype Action = Post(eid: nat, data: Data) | SetHandler(eid: nat, handler: Handler) | FreeId(eid: nat)

  /** What became of a dispatched event: a handler was called with the event, its own data and the data posted, or there
      was none. */
  datatype Outcome = Handled(eid: nat, data: Data, handler: Handler) | Dropped(eid: nat, data: Data)

  /** The posts among some actions, in order. */
  function Posts(acts: seq<Action>): seq<(nat, Data)> {
    if acts == [] then []
    else (if acts[0].Post? then [(acts[0].eid, acts[0].data)] else []) + Posts(acts[1..])
  }

  /** The handler table after some actions. */
  function Table(handlers: map<nat, Handler>, acts: seq<Action>): map<nat, Handler>
    decreases |acts|
  {
    if acts == [] then handlers
    else
      var rest := acts[1..];
      match acts[0]
      case Post(_, _) => Table(handlers, rest)
      case SetHandler(eid, h) => Table(handlers[eid := h], rest)
      case FreeId(eid) => Table(handlers - {eid}, rest)
  }

  /** All that the handlers do, one after another. */
  function Concat<T>(scripts: seq<seq<T>>): seq<T> {
    if scripts == [] then [] else scripts[0] + Concat(scripts[1..])
  }

  lemma {:induction false} PostsConcat(a: seq<Action>, b: seq<Action>)
    ensures Posts(a + b) == Posts(a) + Posts(b)
    decreases |a|
  {
    if a == [] {
      assert a + b == b;
    } else {
      assert (a + b)[1..] == a[1..] + b && (a + b)[0] == a[0];
      PostsConcat(a[1..], b);
      assert Posts(a + b) == (if a[0].Post? then [(a[0].eid, a[0].data)] else []) + (Posts(a[1..]) + Posts(b));
    }
  }

  lemma {:induction false} TableConcat(handlers: map<nat, Handler>, a: seq<Action>, b: seq<Action>)
    ensures Table(handlers, a + b) == Table(Table(handlers, a), b)
    decreases |a|
  {
    if a == [] {
      assert a + b == b;
    } else {
      assert (a + b)[1..] == a[1..] + b;
      match a[0]
      case Post(_, _) => TableConcat(handlers, a[1..], b);
      case SetHandler(eid, h) => TableConcat(handlers[eid := h], a[1..], b);
      case FreeId(eid) => TableConcat(handlers - {eid}, a[1..], b);
    }
  }

  /** The action registers or removes a handler of the event. */
  predicate Concerns(act: Action, eid: nat) { !act.Post? && act.eid == eid }

  /** The last action that concerns an event decides its handler; without one the handler stays. */
  lemma {:induction false} LastDecides(handlers: map<nat, Handler>, acts: seq<Action>, eid: nat, k: int)
    requires -1 <= k < |acts| && (k >= 0 ==> Concerns(acts[k], eid))
    requires forall i :: k < i < |acts| ==> !Concerns(acts[i], eid)
    ensures var now := Table(handlers, acts);
            if k < 0 then (eid in now <==> eid in handlers) && (eid in now ==> now[eid] == handlers[eid])
            else (eid in now <==> acts[k].SetHandler?) && (eid in now ==> now[eid] == acts[k].handler)
    decreases |acts|
  {
    if acts != [] {
      var rest := acts[1..];
      assert forall i :: 0 <= i < |rest| ==> rest[i] == acts[i + 1];
      var first := Table(handlers, [acts[0]]);
      assert [acts[0]][1..] == [];
      assert acts == [acts[0]] + rest;
      TableConcat(handlers, [acts[0]], rest);
      LastDecides(first, rest, eid, if k > 0 then k - 1 else -1);
    }
  }

  lemma FirstThenRest(queue: seq<(nat, Data)>, handlers: map<nat, Handler>, acts: seq<Action>)
    requires acts != []
    ensures queue + Posts([acts[0]]) + Posts(acts[1..]) == queue + Posts(acts)
    ensures Table(handlers, acts) == Table(Table(handlers, [acts[0]]), acts[1..])
  {
    assert acts == [acts[0]] + acts[1..];
    PostsConcat([acts[0]], acts[1..]);
    TableConcat(handlers, [acts[0]], acts[1..]);
  }

  /** The queue, the handler table, and what the handlers that are still to be called will do: the k-th call does
      scripts[k], and nothing once the scripts are used up. */
  datatype Loop = Loop(queue: seq<(nat, Data)>, handlers: map<nat, Handler>, scripts: seq<seq<Action>>)

  /** What becomes of the first event. */
  function Outcome0(s: Loop): Outcome
    requires s.queue != []
  {
    var (eid, data) := s.queue[0];
    if eid in s.handlers then Handled(eid, data, s.handlers[eid]) else Dropped(eid, data)
  }

  /** One round of the dispatch loop. */
  function Next(s: Loop): Loop
    requires s.queue != []
  {
    if Outcome0(s).Dropped? || s.scripts == [] then s.(queue := s.queue[1..])
    else Loop((s.queue + Posts(s.scripts[0]))[1..], Table(s.handlers, s.scripts[0]), s.scripts[1..])
  }

  function Remaining(s: Loop): nat { |s.queue| + |Posts(Concat(s.scripts))| }

  lemma NextWork(s: Loop)
    requires s.queue != []
    ensures Remaining(Next(s)) < Remaining(s)
  {
    if s.scripts != [] { PostsConcat(s.scripts[0], Concat(s.scripts[1..])); }
  }

  /** The dispatch loop. */
  function Dispatch(s: Loop): seq<Outcome>
    decreases Remaining(s)
  {
    if s.queue == [] then []
    else
      NextWork(s);
      [Outcome0(s)] + Dispatch(Next(s))
  }

  /** How many handlers were called. */
  function Calls(trace: seq<Outcome>): nat {
    if trace == [] then 0 else (if trace[0].Handled? then 1 else 0) + Calls(trace[1..])
  }

  function EventOf(o: Outcome): (nat, Data) { (o.eid, o.data) }

  function EventsOf(trace: seq<Outcome>): (es: seq<(nat, Data)>)
    ensures |es| == |trace|
  {
    if trace == [] then [] else [EventOf(trace[0])] + EventsOf(trace[1..])
  }

  /** The actions of the first n handlers called. */
  function Done(scripts: seq<seq<Action>>, n: nat): seq<Action> {
    Concat(if n <= |scripts| then scripts[..n] else scripts)
  }

  lemma DoneStep(scripts: seq<seq<Action>>, n: nat)
    ensures scripts == [] ==> Done(scripts, n) == []
    ensures scripts != [] ==> Done(scripts, n + 1) == scripts[0] + Done(scripts[1..], n)
  {
    if scripts != [] {
      var s := if n + 1 <= |scripts| then scripts[..n + 1] else scripts;
      assert s[1..] == if n <= |scripts[1..]| then scripts[1..][..n] else scripts[1..];
    }
  }

  /** First in, first out, each exactly once: what is dispatched is what was queued and then what the called handlers
      posted, in the order of the posts. */
  lemma {:induction false} Fifo(s: Loop)
    ensures var trace := Dispatch(s); EventsOf(trace) == s.queue + Posts(Done(s.scripts, Calls(trace)))
    decreases Remaining(s)
  {
    if s.queue != [] {
      NextWork(s);
      Fifo(Next(s));
      var rest := Dispatch(Next(s));
      assert Dispatch(s) == [Outcome0(s)] + rest && Dispatch(s)[1..] == rest;
      PostsStep(s, Calls(rest));
      assert EventOf(Outcome0(s)) == s.queue[0];
      assert EventsOf(Dispatch(s)) == [s.queue[0]] + EventsOf(rest);
      assert Calls(Dispatch(s)) == if Outcome0(s).Handled? then Calls(rest) + 1 else Calls(rest);
    } else {
      assert Done(s.scripts, 0) == [];
    }
  }

  /** What the first handlers called post, seen from the next round. */
  lemma PostsStep(s: Loop, n: nat)
    requires s.queue != []
    ensures [s.queue[0]] + (Next(s).queue + Posts(Done(Next(s).scripts, n)))
         == s.queue + Posts(Done(s.scripts, if Outcome0(s).Handled? then n + 1 else n))
  {
    DoneStep(s.scripts, n);
    DoneStep(s.scripts, n + 1);
    assert s.queue == [s.queue[0]] + s.queue[1..];
    if Outcome0(s).Handled? && s.scripts != [] {
      var p, q := Posts(s.scripts[0]), Posts(Done(s.scripts[1..], n));
      PostsConcat(s.scripts[0], Done(s.scripts[1..], n));
      assert (s.queue + p)[1..] == s.queue[1..] + p;
      assert [s.queue[0]] + (s.queue[1..] + p + q) == s.queue + (p + q);
    }
  }

  /** An event is dropped if and only if no handler is registered at the moment it is dispatched; otherwise it goes to
      that handler. */
  lemma {:induction false} DroppedIff(s: Loop, k: nat)
    requires k < |Dispatch(s)|
    ensures var trace := Dispatch(s);
            var now := Table(s.handlers, Done(s.scripts, Calls(trace[..k])));
            (trace[k].Dropped? <==> trace[k].eid !in now) && (trace[k].Handled? ==> trace[k].handler == now[trace[k].eid])
    decreases k
  {
    var trace := Dispatch(s);
    if k == 0 {
      assert trace[..0] == [] && Done(s.scripts, 0) == [];
    } else {
      assert trace[..k][1..] == trace[1..][..k - 1] && trace[1..] == Dispatch(Next(s));
      DroppedIff(Next(s), k - 1);
      TableStep(s, Calls(trace[1..][..k - 1]));
    }
  }

  /** The table after the first handlers called, seen from the next round. */
  lemma TableStep(s: Loop, n: nat)
    requires s.queue != []
    ensures Table(Next(s).handlers, Done(Next(s).scripts, n))
         == Table(s.handlers, Done(s.scripts, if Outcome0(s).Handled? then n + 1 else n))
  {
    DoneStep(s.scripts, n);
    DoneStep(s.scripts, n + 1);
    if s.scripts != [] { TableConcat(s.handlers, s.scripts[0], Done(s.scripts[1..], n)); }
  }

  // struct event, without the link
  type Posted = (nat, Data)

  /** The module's state: the queue from head to tail, and the handler table. */
  class EventLoop {
    var head: Cell?<Posted>
    var tail: Cell?<Posted>
    var handlers: map<nat, Handler>
    ghost var order: seq<Cell<Posted>>

    /** The queue: while events are dispatched the tail may be left over from an event already freed. */
    ghost predicate Chained()
      reads this`head, this`tail, this`order, order
    {
      Linked(order) && head == Nth(order, 0) && (order != [] ==> tail == order[|order| - 1])
    }

    ghost predicate Valid()
      reads this`head, this`tail, this`order, order
    {
      Chained() && (order == [] ==> tail == null)
    }

    ghost function Tails(): set<Cell<Posted>>
      reads this`tail
    {
      if tail == null then {} else {tail}
    }

    ghost function Queue(): seq<(nat, Data)>
      reads this`order
    {
      Values(order)
    }

    constructor ()
      ensures Valid() && Queue() == [] && handlers == map[]
    {
      head, tail, handlers, order := null, null, map[], [];
    }

    /** event_post */
    method Post(eid: nat, data: Data)
      requires Valid()
      modifies this`head, this`tail, this`order, Tails()`next
      ensures Valid() && Queue() == old(Queue()) + [(eid, data)]
      ensures Tails() == old(Tails()) || fresh(Tails())
    {
      var ev := new Cell<Posted>((eid, data));
      if tail == null {
        head, tail := ev, ev;
      } else {
        NotLast(order);
        tail.next := ev;
        tail := ev;
      }
      ValuesMore(order, ev);
      assert forall i {:trigger order[i].next} :: 0 <= i < |order| ==> order[i].next == Nth(order + [ev], i + 1);
      order := order + [ev];
    }

    /** event_set_handler */
    method SetHandler(eid: nat, fn: nat, data0: Data)
      modifies this`handlers
      ensures handlers == old(handlers)[eid := Handler(fn, data0)]
    {
      handlers := handlers[eid := Handler(fn, data0)];
    }

    /** event_free_id */
    method FreeId(eid: nat)
      modifies this`handlers
      ensures handlers == old(handlers) - {eid}
    {
      handlers := handlers - {eid};
    }

    method Act(act: Action)
      requires Valid()
      modifies this`head, this`tail, this`order, this`handlers, Tails()`next
      ensures Valid() && Queue() == old(Queue()) + Posts([act]) && handlers == Table(old(handlers), [act])
      ensures Tails() == old(Tails()) || fresh(Tails())
    {
      match act
      case Post(eid, data) => Post(eid, data);
      case SetHandler(eid, h) => SetHandler(eid, h.fn, h.data0);
      case FreeId(eid) => FreeId(eid);
    }

    /** A handler runs: it does what it likes to the queue and the table. */
    method RunHandler(acts: seq<Action>)
      requires Valid()
      modifies this`head, this`tail, this`order, this`handlers, Tails()`next
      ensures Valid() && Queue() == old(Queue()) + Posts(acts) && handlers == Table(old(handlers), acts)
      ensures Tails() == old(Tails()) || fresh(Tails())
      decreases |acts|
    {
      if acts == [] { return; }
      hide Linked, Posts, Table;
      FirstThenRest(Queue(), handlers, acts);
      Act(acts[0]);
      RunHandler(acts[1..]);
    }

    /** One round of the loop of event_work. */
    method Round(scripts: seq<seq<Action>>) returns (o: Outcome, left: seq<seq<Action>>)
      requires Chained() && head != null
      modifies this`head, this`tail, this`order, this`handlers, Tails()`next
      ensures Chained() && (Tails() == old(Tails()) || fresh(Tails()))
      ensures o == Outcome0(old(Loop(Queue(), handlers, scripts)))
      ensures Loop(Queue(), handlers, left) == Next(old(Loop(Queue(), handlers, scripts)))
    {
      hide Linked, Table, Posts;
      var (eid, data) := head.value;
      left := scripts;
      if eid !in handlers {
        o := Dropped(eid, data);
      } else {
        o := Handled(eid, data, handlers[eid]);
        if scripts != [] {
          RunHandler(scripts[0]);
          left := scripts[1..];
        }
      }
      Pop();
    }

    /** The event at the head is freed. */
    method Pop()
      requires Chained() && head != null
      modifies this`head, this`order
      ensures Chained() && Queue() == old(Queue())[1..]
    {
      ghost var left := order[1..];
      LinkedTail(order);
      assert left != [] ==> left[|left| - 1] == tail;
      head := head.next;
      order := left;
    }

    /** event_work, given what the handlers that are called do. */
    method Work(scripts: seq<seq<Action>>) returns (trace: seq<Outcome>)
      requires Valid()
      modifies this`head, this`tail, this`order, this`handlers, Tails()`next
      ensures Valid() && head == null && tail == null && Queue() == []
      ensures trace == Dispatch(old(Loop(Queue(), handlers, scripts)))
      ensures handlers == Table(old(handlers), Done(scripts, Calls(trace)))
    {
      hide Linked, Next, Outcome0;
      trace := [];
      var left := scripts;
      ghost var s := Loop(Queue(), handlers, scripts);
      while head != null
        invariant Chained() && (Tails() == old(Tails()) || fresh(Tails()))
        invariant Dispatch(s) == trace + Dispatch(Loop(Queue(), handlers, left))
        invariant FinalTable(s) == FinalTable(Loop(Queue(), handlers, left))
        decreases Remaining(Loop(Queue(), handlers, left))
      {
        ghost var now := Loop(Queue(), handlers, left);
        NextWork(now);
        FinalStep(now);
        var o;
        o, left := Round(left);
        trace := trace + [o];
      }
      tail := null;
    }
  }

  /** The handler table when the loop ends. */
  function FinalTable(s: Loop): map<nat, Handler> {
    Table(s.handlers, Done(s.scripts, Calls(Dispatch(s))))
  }

  lemma FinalStep(s: Loop)
    requires s.queue != []
    ensures FinalTable(s) == FinalTable(Next(s))
  {
    assert Dispatch(s)[1..] == Dispatch(Next(s));
    TableStep(s, Calls(Dispatch(Next(s))));
  }
}
