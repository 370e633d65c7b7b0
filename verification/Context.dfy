/** The list of outstanding requests that the two coroutines of a client share (core/net_handle.h, core/net_handle.c,
    core/net_http.c). */
module Contexts {
  import opened Events
  import opened Links
  import P = Pipeline

  // struct net_handle_list, without the link
  type Outstanding = P.Entry

  /** struct net_handle_cxt, as far as responses are concerned. */
  class Context {
    var head: Cell?<Outstanding>
    var tail: Cell?<Outstanding>
    var rspBlocked: bool
    const evReq: nat
    const evRsp: nat
    const events: EventLoop
    ghost var order: seq<Cell<Outstanding>>

    // conn_event_handler, and the coroutines that it is registered with
    const resume: nat
    const cxtReq: Data
    const cxtRsp: Data

    ghost predicate ListOk()
      reads this`head, this`tail, this`order, order
    {
      Linked(order) && head == Nth(order, 0) && tail == (if order == [] then null else order[|order| - 1])
    }

    ghost predicate Valid()
      reads this, order, events, events.order
    {
      ListOk() && events.Valid() && evReq != evRsp
    }

    ghost function Queue(): seq<P.Entry>
      reads this`order
    {
      Values(order)
    }

    ghost function Tails(): set<Cell<Outstanding>>
      reads this
    {
      if tail == null then {} else {tail}
    }

    function IdOf(eid: nat): P.EventId {
      if eid == evReq then P.ReqEvent else if eid == evRsp then P.RspEvent else P.Other
    }

    function Ids(q: seq<(nat, Data)>): (ids: seq<P.EventId>)
      ensures |ids| == |q| && forall i :: 0 <= i < |q| ==> ids[i] == IdOf(q[i].0)
    {
      if q == [] then [] else [IdOf(q[0].0)] + Ids(q[1..])
    }

    lemma {:induction false} IdsMore(q: seq<(nat, Data)>, more: seq<(nat, Data)>)
      ensures Ids(q + more) == Ids(q) + Ids(more)
    {
      if q == [] {
        assert q + more == more;
      } else {
        assert (q + more)[1..] == q[1..] + more;
        IdsMore(q[1..], more);
      }
    }

    /** A coroutine's handler is registered exactly when it says so, and resumes it. */
    predicate Set(handlers: map<nat, Handler>, eid: nat, cxt: Data, registered: bool) {
      (registered <==> eid in handlers) && (registered ==> handlers[eid] == Handler(resume, cxt))
    }

    /** The protocol state has this queue, this flag, this event queue and these handlers. */
    predicate Agrees(st: P.State, list: seq<P.Entry>, blocked: bool, q: seq<(nat, Data)>, handlers: map<nat, Handler>) {
      st.queue == list && st.rspBlocked == blocked && st.events == Ids(q)
      && Set(handlers, evReq, cxtReq, st.reqRegistered) && Set(handlers, evRsp, cxtRsp, st.rspRegistered)
    }

    ghost predicate Shows(st: P.State)
      reads this, events
    {
      Agrees(st, Queue(), rspBlocked, events.Queue(), events.handlers)
    }

    lemma IdsNotice(q: seq<(nat, Data)>, eid: nat)
      ensures Ids(q + [(eid, 1)]) == Ids(q) + [IdOf(eid)]
    {
      IdsMore(q, [(eid, 1)]);
      assert Ids([(eid, 1)]) == [IdOf(eid)];
    }

    lemma ReqStarts(st: P.State, list: seq<P.Entry>, blocked: bool, q: seq<(nat, Data)>, handlers: map<nat, Handler>)
      requires Agrees(st, list, blocked, q, handlers) && st.boot.Accepted? && evReq != evRsp
      ensures Agrees(P.DoBegin(P.DoBegin(st)), list, blocked, q + [(evReq, 1)], handlers[evReq := Handler(resume, cxtReq)])
    {
      hide Ids;
      IdsNotice(q, evReq);
    }

    lemma RspStarts(st: P.State, list: seq<P.Entry>, blocked: bool, q: seq<(nat, Data)>, handlers: map<nat, Handler>)
      requires Agrees(st, list, blocked, q, handlers) && st.boot.ReqSet? && evReq != evRsp
      ensures Agrees(P.DoBegin(P.DoBegin(st)), list, true, q + [(evRsp, 1)], handlers[evRsp := Handler(resume, cxtRsp)])
    {
      hide Ids;
      IdsNotice(q, evRsp);
    }

    lemma RequestJoins(st: P.State, list: seq<P.Entry>, blocked: bool, q: seq<(nat, Data)>, handlers: map<nat, Handler>)
      requires Agrees(st, list, blocked, q, handlers) && st.req.Forwarded? && evReq != evRsp
      ensures Agrees(P.DoEnqueue(st), list + [P.Entry(st.req.k, st.req.server)], blocked,
                     q + (if blocked then [(evRsp, 1)] else []), handlers)
    {
      hide Ids, Set;
      IdsNotice(q, evRsp);
      assert q + [] == q;
    }

    lemma LookReads(st: P.State)
      ensures P.Look(st).rsp == if st.queue == [] then P.Waiting else P.Reading(st.queue[0])
    {
    }

    lemma Looks(st: P.State, list: seq<P.Entry>, blocked: bool, q: seq<(nat, Data)>, handlers: map<nat, Handler>)
      requires Agrees(st, list, blocked, q, handlers) && evReq != evRsp
      ensures Agrees(P.Look(st), list, list == [], q,
                     if list == [] then handlers[evRsp := Handler(resume, cxtRsp)] else handlers)
    {
      hide Ids;
    }

    constructor (events: EventLoop, evReq: nat, evRsp: nat, resume: nat, cxtReq: Data, cxtRsp: Data)
      requires events.Valid() && evReq != evRsp
      ensures Valid() && Queue() == [] && !rspBlocked && this.evReq == evReq && this.evRsp == evRsp && this.events == events
      ensures this.resume == resume && this.cxtReq == cxtReq && this.cxtRsp == cxtRsp
    {
      this.events, this.evReq, this.evRsp, this.resume := events, evReq, evRsp, resume;
      this.cxtReq, this.cxtRsp := cxtReq, cxtRsp;
      head, tail, order, rspBlocked := null, null, [], false;
    }

    /** The first segment of net_req_handler and, after its yield, conn_async_final. */
    method StartReq(ghost st: P.State)
      requires Valid() && Shows(st) && st.boot.Accepted?
      modifies events`head, events`tail, events`order, events`handlers, events.Tails()`next
      ensures Valid() && Shows(P.DoBegin(P.DoBegin(st)))
    {
      hide ListOk, Agrees;
      ReqStarts(st, Queue(), rspBlocked, events.Queue(), events.handlers);
      Notice(evReq);
      events.SetHandler(evReq, resume, cxtReq);
    }

    /** The same for net_rsp_handler. */
    method StartRsp(ghost st: P.State)
      requires Valid() && Shows(st) && st.boot.ReqSet?
      modifies this`rspBlocked, events`head, events`tail, events`order, events`handlers, events.Tails()`next
      ensures Valid() && Shows(P.DoBegin(P.DoBegin(st)))
    {
      hide ListOk, Agrees;
      RspStarts(st, Queue(), rspBlocked, events.Queue(), events.handlers);
      Notice(evRsp);
      rspBlocked := true;
      events.SetHandler(evRsp, resume, cxtRsp);
    }

    /** An event is posted; the list of requests is not touched. */
    method Notice(eid: nat)
      requires Valid()
      modifies events`head, events`tail, events`order, events.Tails()`next
      ensures Valid() && Queue() == old(Queue()) && events.Queue() == old(events.Queue()) + [(eid, 1)]
    {
      hide Linked, Values;
      events.Post(eid, 1);
    }

    /** net_http_req_handler: the request joins the queue, and the response coroutine is woken if it is blocked. */
    method AddRequest(req: nat, server: nat, ghost st: P.State)
      requires Valid() && Shows(st) && st.req == P.Forwarded(req, server)
      modifies this`head, this`tail, this`order, Tails()`next,
               events`head, events`tail, events`order, events.Tails()`next
      ensures Valid() && Queue() == old(Queue()) + [P.Entry(req, server)]
      ensures events.Queue() == old(events.Queue()) + (if rspBlocked then [(evRsp, 1)] else [])
      ensures Shows(P.DoEnqueue(st))
    {
      assert evReq != evRsp;
      hide Valid, Agrees;
      RequestJoins(st, Queue(), rspBlocked, events.Queue(), events.handlers);
      LinkAndPost(req, server);
    }

    method LinkAndPost(req: nat, server: nat)
      requires Valid()
      modifies this`head, this`tail, this`order, Tails()`next,
               events`head, events`tail, events`order, events.Tails()`next
      ensures Valid() && Queue() == old(Queue()) + [P.Entry(req, server)]
      ensures events.Queue() == old(events.Queue()) + (if rspBlocked then [(evRsp, 1)] else [])
    {
      hide ListOk;
      Link(req, server);
      if rspBlocked {
        Notice(evRsp);
      }
    }

    method Link(req: nat, server: nat)
      requires Valid()
      modifies this`head, this`tail, this`order, Tails()`next
      ensures Valid() && Queue() == old(Queue()) + [P.Entry(req, server)]
    {
      var p := new Cell<Outstanding>(P.Entry(req, server));
      if head == null {
        head, tail := p, p;
      } else {
        NotLast(order);
        tail.next := p;
        tail := p;
      }
      assert forall i {:trigger order[i].next} :: 0 <= i < |order| ==> order[i].next == Nth(order + [p], i + 1);
      ValuesMore(order, p);
      order := order + [p];
    }

    /** The head of the loop of net_rsp_handler: the first entry, or the coroutine blocks, and conn_async_final registers
        its handler again. */
    method Look(ghost st: P.State) returns (h: Cell?<Outstanding>)
      requires Valid() && Shows(st)
      modifies this`rspBlocked, events`handlers
      ensures Valid() && rspBlocked == (Queue() == []) && Shows(P.Look(st))
      ensures P.Look(st).rsp == if h == null then P.Waiting else P.Reading(h.value)
    {
      hide Linked, Agrees, Values, P.Look;
      SameQueue(st);
      Looks(st, Queue(), rspBlocked, events.Queue(), events.handlers);
      LookReads(st);
      h := head;
      rspBlocked := h == null;
      if h == null {
        events.SetHandler(evRsp, resume, cxtRsp);
      }
    }

    lemma SameQueue(st: P.State)
      requires Shows(st)
      ensures Queue() == st.queue && |Queue()| == |order| && (order != [] ==> st.queue[0] == order[0].value)
    {
    }

    /** The end of that loop, for a response from a connection that is open. */
    method Answered(code: int)
      requires Valid() && head != null
      modifies this`head, this`tail, this`order
      ensures Valid() && Queue() == if code == 100 then old(Queue()) else old(Queue())[1..]
    {
      if code == 100 { return; }
      ghost var left := order[1..];
      LinkedTail(order);
      assert left != [] ==> left[|left| - 1] == tail;
      head := head.next;
      if head == null {
        tail := null;
      }
      order := left;
    }

    /** From a response that was forwarded to the entry that is served next. */
    method NextEntry(code: int, ghost st: P.State) returns (h: Cell?<Outstanding>)
      requires Valid() && head != null && Shows(st) && st.rsp.Sending? && st.rsp.r.code == code
      modifies this`head, this`tail, this`order, this`rspBlocked, events`handlers
      ensures Valid() && Shows(P.DoWritten(st))
      ensures P.DoWritten(st).rsp == if h == null then P.Waiting else P.Reading(h.value)
    {
      assert |st.queue| == |order| > 0;
      hide ListOk;
      ghost var st' := Left(st);
      LeftAgrees(st, Queue(), rspBlocked, events.Queue(), events.handlers);
      hide Agrees;
      Answered(code);
      h := Look(st');
    }

    /** The state between the end of the loop body and the head of the loop. */
    ghost function Left(st: P.State): P.State
      requires st.rsp.Sending? && st.queue != []
    {
      var st' := st.(out := st.out + [st.rsp.r]);
      if st.rsp.r.code == 100 then st' else st'.(queue := st.queue[1..], pops := st.pops + [st.rsp.r])
    }

    lemma LeftAgrees(st: P.State, list: seq<P.Entry>, blocked: bool, q: seq<(nat, Data)>, handlers: map<nat, Handler>)
      requires Agrees(st, list, blocked, q, handlers) && st.rsp.Sending? && st.queue != []
      ensures Agrees(Left(st), if st.rsp.r.code == 100 then list else list[1..], blocked, q, handlers)
      ensures P.DoWritten(st) == P.Look(Left(st))
    {
      hide Ids, Set;
    }

    /** A round of the event loop is the Dispatch step: the coroutine whose event it was is resumed exactly when the loop
        finds its handler, and the event queue loses that event and gains what the handler posts. */
    lemma DispatchShows(st: P.State, scripts: seq<seq<Action>>)
      requires Shows(st) && evReq != evRsp && events.Queue() != []
      ensures var loop := Loop(events.Queue(), events.handlers, scripts);
              Ids(Next(loop).queue) == P.DoDispatch(st).events + Ids(PostedBy(loop))
      ensures P.DoDispatch(st) == Resumed(st, Outcome0(Loop(events.Queue(), events.handlers, scripts)))
    {
      RoundEvents(st, Loop(events.Queue(), events.handlers, scripts));
      RoundResumes(st, Queue(), rspBlocked, Loop(events.Queue(), events.handlers, scripts));
    }

    /** What the handler of the first event posts. */
    function PostedBy(loop: Loop): seq<(nat, Data)>
      requires loop.queue != []
    {
      if Outcome0(loop).Handled? && loop.scripts != [] then Posts(loop.scripts[0]) else []
    }

    /** The state in which the coroutine that a handler call resumes, if it waits for that event, yields again. */
    function Resumed(st: P.State, o: Outcome): P.State
      requires st.events != []
    {
      var st' := st.(events := st.events[1..]);
      if o == Handled(evRsp, o.data, Handler(resume, cxtRsp)) && st.rsp.Waiting? then P.Look(st')
      else if o == Handled(evReq, o.data, Handler(resume, cxtReq)) && st.req.ReqStart? then st'.(req := P.Fetching)
      else st'
    }

    lemma NextQueue(loop: Loop)
      requires loop.queue != []
      ensures Next(loop).queue == loop.queue[1..] + PostedBy(loop)
    {
      hide Posts, Table;
      var q, posts := loop.queue, PostedBy(loop);
      assert (q + posts)[1..] == q[1..] + posts;
      assert posts == [] ==> q[1..] + posts == q[1..];
    }

    lemma DispatchTakes(st: P.State)
      requires st.events != []
      ensures P.DoDispatch(st).events == st.events[1..]
    {
    }

    lemma RoundEvents(st: P.State, loop: Loop)
      requires st.events == Ids(loop.queue) && loop.queue != []
      ensures Ids(Next(loop).queue) == P.DoDispatch(st).events + Ids(PostedBy(loop))
    {
      assert Ids(loop.queue)[1..] == Ids(loop.queue[1..]);
      hide Ids, PostedBy, Next, P.DoDispatch;
      DispatchTakes(st);
      NextQueue(loop);
      IdsMore(loop.queue[1..], PostedBy(loop));
    }

    lemma RoundResumes(st: P.State, list: seq<P.Entry>, blocked: bool, loop: Loop)
      requires Agrees(st, list, blocked, loop.queue, loop.handlers) && evReq != evRsp && loop.queue != []
      ensures P.DoDispatch(st) == Resumed(st, Outcome0(loop))
    {
      hide P.Look;
      assert Ids(loop.queue)[0] == IdOf(loop.queue[0].0);
      hide Ids;
    }
  }
}
