/** The pipelining protocol: two coroutines per client, a queue of outstanding requests, and the event that wakes the
    response coroutine (core/net_handle.c, core/net_http.c, core/event.c, core/conn.c). */
module Pipeline {
  /** A response on a server's connection: the request that it answers, its status code, and whether it is the final
      answer. No final answer has the code 100. */
  datatype Response = Response(req: nat, code: int, final: bool)

  predicate Proper(r: Response) { r.final ==> r.code != 100 }

  /** A server's end of a connection: the requests it has got and not finally answered, in order, and the responses
      that are on their way to the proxy. */
  datatype Server = Server(pending: seq<nat>, wire: seq<Response>)

  /** An entry of the queue of outstanding requests. */
  datatype Entry = Entry(req: nat, server: nat)

  /** Where the request coroutine is: waiting for its first event; somewhere before a request is forwarded; with a
      request forwarded and not yet in the queue; forwarding the body of a request in the queue. */
  datatype ReqAt = ReqStart | Fetching | Forwarded(k: nat, server: nat) | Body

  /** Where the response coroutine is: not created; waiting for its event; fetching a response for an entry;
      forwarding it. */
  datatype RspAt = NotYet | Waiting | Reading(e: Entry) | Sending(e: Entry, r: Response)

  datatype EventId = ReqEvent | RspEvent | Other

  /** How far conn_accept_handler has got with a new client: nothing done; the request coroutine has posted its event
      and yielded; its handler is registered; the response coroutine has posted its event and yielded; its handler is
      registered and control is back in the main loop. */
  datatype Boot = Accepted | ReqPosted | ReqSet | RspPosted | Running

  /** The state between two segments, with the history of what was written and of what removed each entry. */
  datatype State = State(
    boot: Boot,
    req: ReqAt,
    rsp: RspAt,
    queue: seq<Entry>,
    rspBlocked: bool,
    reqRegistered: bool,
    rspRegistered: bool,
    events: seq<EventId>,
    servers: seq<Server>,
    targets: seq<nat>,
    out: seq<Response>,
    pops: seq<Response>)

  /** A client was accepted. */
  function Init(n: nat): State {
    State(Accepted, ReqStart, NotYet, [], false, false, false, [], seq(n, _ => Server([], [])), [], [], [])
  }

  /** One segment of a coroutine, or one step of the surroundings.
      Begin: conn_accept_handler goes one step on; it is not called from the event loop, so nothing is dispatched before
      it is done.
      Forward: a request for a server is read and its header sent. Enqueue: it is added to the queue, and the response
      coroutine is woken if it is blocked. BodyDone: its body was forwarded. Answer: a server sends a response to the
      first request it has not answered. Read: the response coroutine gets a response. Written: it was forwarded.
      Dispatch: the event loop takes an event. PostOther: another client's event. Resume: a handler left over from an
      earlier wait for input or output resumes the response coroutine while it waits for its event. Resuming a coroutine
      that waits for input or output only makes it try the operation again. */
  datatype Step = Begin | Forward(s: nat) | Enqueue | BodyDone | Answer(s: nat, code: int, final: bool) | Read | Written
    | Dispatch | PostOther | Resume

  predicate Enabled(st: State, e: Step) {
    match e
    case Begin => !st.boot.Running?
    case Forward(s) => st.req.Fetching? && s < |st.servers|
    case Enqueue => st.req.Forwarded?
    case BodyDone => st.req.Body?
    case Answer(s, code, final) => s < |st.servers| && st.servers[s].pending != [] && (final ==> code != 100)
    case Read => st.rsp.Reading? && st.rsp.e.server < |st.servers| && st.servers[st.rsp.e.server].wire != []
    case Written => st.rsp.Sending? && st.queue != []
    case Dispatch => st.boot.Running? && st.events != []
    case PostOther => true
    case Resume => st.boot.Running? && st.rsp.Waiting?
  }

  function Do(st: State, e: Step): State
    requires Enabled(st, e)
  {
    match e
    case Begin => DoBegin(st)
    case Forward(s) => DoForward(st, s)
    case Enqueue => DoEnqueue(st)
    case BodyDone => st.(req := Fetching)
    case Answer(s, code, final) => DoAnswer(st, s, code, final)
    case Read => DoRead(st)
    case Written => DoWritten(st)
    case Dispatch => DoDispatch(st)
    case PostOther => st.(events := st.events + [Other])
    case Resume => Look(st)
  }

  /** A coroutine posts its own event and yields; then conn_async_final registers its handler. */
  function DoBegin(st: State): State
    requires !st.boot.Running?
  {
    match st.boot
    case Accepted => st.(boot := ReqPosted, events := st.events + [ReqEvent])
    case ReqPosted => st.(boot := ReqSet, reqRegistered := true)
    case ReqSet => st.(boot := RspPosted, events := st.events + [RspEvent], rsp := Waiting, rspBlocked := true)
    case RspPosted => st.(boot := Running, rspRegistered := true)
  }

  function DoForward(st: State, s: nat): State
    requires s < |st.servers|
  {
    var v := st.servers[s];
    st.(req := Forwarded(|st.targets|, s), targets := st.targets + [s],
        servers := st.servers[s := v.(pending := v.pending + [|st.targets|])])
  }

  function DoEnqueue(st: State): State
    requires st.req.Forwarded?
  {
    st.(req := Body, queue := st.queue + [Entry(st.req.k, st.req.server)],
        events := if st.rspBlocked then st.events + [RspEvent] else st.events)
  }

  function DoAnswer(st: State, s: nat, code: int, final: bool): State
    requires s < |st.servers| && st.servers[s].pending != []
  {
    var v := st.servers[s];
    st.(servers := st.servers[s := Server(if final then v.pending[1..] else v.pending,
                                          v.wire + [Response(v.pending[0], code, final)])])
  }

  function DoRead(st: State): State
    requires st.rsp.Reading? && st.rsp.e.server < |st.servers| && st.servers[st.rsp.e.server].wire != []
  {
    var s := st.rsp.e.server;
    var v := st.servers[s];
    st.(rsp := Sending(st.rsp.e, v.wire[0]), servers := st.servers[s := v.(wire := v.wire[1..])])
  }

  /** The head of the loop of net_rsp_handler: an entry is served, or the coroutine blocks. */
  function Look(st: State): State {
    if st.queue == [] then st.(rsp := Waiting, rspBlocked := true, rspRegistered := true)
    else st.(rsp := Reading(st.queue[0]), rspBlocked := false)
  }

  /** The response is out; only a code of 100 keeps the entry. */
  function DoWritten(st: State): State
    requires st.rsp.Sending? && st.queue != []
  {
    var r := st.rsp.r;
    var st' := st.(out := st.out + [r]);
    Look(if r.code == 100 then st' else st'.(queue := st.queue[1..], pops := st.pops + [r]))
  }

  /** The event loop: an event reaches a coroutine only through a registered handler. */
  function DoDispatch(st: State): State
    requires st.events != []
  {
    var st' := st.(events := st.events[1..]);
    match st.events[0]
    case ReqEvent => if st.reqRegistered && st.req.ReqStart? then st'.(req := Fetching) else st'
    case RspEvent => if st.rspRegistered && st.rsp.Waiting? then Look(st') else st'
    case Other => st'
  }

  /** A run from the start: each step is enabled where it is taken. */
  predicate IsRun(st: State, steps: seq<Step>)
    decreases |steps|
  {
    steps == [] || (Enabled(st, steps[0]) && IsRun(Do(st, steps[0]), steps[1..]))
  }

  function After(st: State, steps: seq<Step>): State
    requires IsRun(st, steps)
    decreases |steps|
  {
    if steps == [] then st else After(Do(st, steps[0]), steps[1..])
  }

  // ---- What every step keeps

  /** The requests that are in the queue or were: the last one forwarded may not be there yet. */
  function Enqueued(st: State): int {
    |st.targets| - if st.req.Forwarded? then 1 else 0
  }

  /** The entries are the requests from the given one on, each with the server that got it. */
  ghost predicate Holds(queue: seq<Entry>, from: nat, targets: seq<nat>) {
    from + |queue| <= |targets|
    && forall i :: 0 <= i < |queue| ==> queue[i] == Entry(from + i, targets[from + i])
  }

  lemma HoldsTail(queue: seq<Entry>, from: nat, targets: seq<nat>)
    requires Holds(queue, from, targets) && queue != []
    ensures Holds(queue[1..], from + 1, targets)
  {
  }

  lemma HoldsMore(queue: seq<Entry>, from: nat, targets: seq<nat>, s: nat)
    requires Holds(queue, from, targets)
    ensures Holds(queue, from, targets + [s])
    ensures from + |queue| < |targets| ==> Holds(queue + [Entry(from + |queue|, targets[from + |queue|])], from, targets)
  {
  }

  /** The queue holds the requests not removed yet, in order. */
  ghost predicate QueueOk(st: State) {
    |st.queue| == Enqueued(st) - |st.pops| && Holds(st.queue, |st.pops|, st.targets)
    && (forall k :: 0 <= k < |st.targets| ==> st.targets[k] < |st.servers|)
    && (st.req.Forwarded? ==> |st.targets| > 0 && st.req.k == |st.targets| - 1 && st.req.server == st.targets[|st.targets| - 1])
    && (st.req.ReqStart? ==> st.targets == [])
  }

  /** Which handlers are registered and which coroutines are there, as far as conn_accept_handler has got; and until it
      is done, no coroutine has been woken. */
  ghost predicate BootOk(st: State) {
    (st.reqRegistered <==> !st.boot.Accepted? && !st.boot.ReqPosted?)
    && (st.rspRegistered <==> st.boot.Running?)
    && (st.rsp.NotYet? <==> !st.boot.RspPosted? && !st.boot.Running?)
    && (!st.boot.Running? ==> st.req.ReqStart? && (st.rsp.NotYet? || st.rsp.Waiting?))
  }

  /** The response coroutine works on the first entry, or waits; and whenever it waits while the queue is not empty,
      its event is on its way. */
  ghost predicate WakeOk(st: State) {
    BootOk(st) && (st.rspBlocked <==> st.rsp.Waiting?)
    && (st.rsp.Reading? || st.rsp.Sending? ==> st.queue != [] && st.rsp.e == st.queue[0])
    && (st.rsp.Waiting? && st.queue != [] ==> RspEvent in st.events)
  }

  /** Only proper responses are around. */
  ghost predicate ProperOk(st: State) {
    ProperWires(st.servers) && (st.rsp.Sending? ==> Proper(st.rsp.r))
  }

  ghost predicate ProperWires(servers: seq<Server>) {
    forall s :: 0 <= s < |servers| ==> AllProper(servers[s].wire)
  }

  ghost predicate AllProper(rs: seq<Response>) {
    forall i :: 0 <= i < |rs| ==> Proper(rs[i])
  }

  ghost predicate Structure(st: State) { QueueOk(st) && WakeOk(st) && ProperOk(st) }

  lemma InitOk(n: nat)
    ensures Structure(Init(n))
  {
  }

  lemma StructureStep(st: State, e: Step)
    requires Structure(st) && Enabled(st, e)
    ensures Structure(Do(st, e))
  {
    QueueStep(st, e);
    WakeStep(st, e);
    ProperStep(st, e);
  }

  lemma QueueStep(st: State, e: Step)
    requires QueueOk(st) && WakeOk(st) && Enabled(st, e)
    ensures QueueOk(Do(st, e))
  {
    hide Holds;
    match e
    case Begin =>
    case Forward(s) => HoldsMore(st.queue, |st.pops|, st.targets, s);
    case Enqueue => HoldsMore(st.queue, |st.pops|, st.targets, 0);
    case BodyDone =>
    case Answer(s, code, final) =>
    case Read =>
    case Written => HoldsTail(st.queue, |st.pops|, st.targets);
    case Dispatch =>
    case PostOther =>
    case Resume =>
  }

  lemma WakeStep(st: State, e: Step)
    requires QueueOk(st) && WakeOk(st) && Enabled(st, e)
    ensures WakeOk(Do(st, e))
  {
    if e.Dispatch? {
      assert RspEvent in st.events ==> st.events[0] == RspEvent || RspEvent in st.events[1..];
    }
  }

  lemma ProperStep(st: State, e: Step)
    requires ProperOk(st) && Enabled(st, e)
    ensures ProperOk(Do(st, e))
  {
    hide ProperWires;
    match e
    case Begin =>
    case Forward(s) => WiresKept(st.servers, s, Do(st, e).servers[s]);
    case Enqueue =>
    case BodyDone =>
    case Answer(s, code, final) => WiresKept(st.servers, s, Do(st, e).servers[s]);
    case Read => WiresKept(st.servers, st.rsp.e.server, Do(st, e).servers[st.rsp.e.server]);
    case Written =>
    case Dispatch =>
    case PostOther =>
    case Resume =>
  }

  lemma WiresKept(servers: seq<Server>, s: nat, v: Server)
    requires ProperWires(servers) && s < |servers|
    ensures AllProper(servers[s].wire)
    ensures AllProper(v.wire) ==> ProperWires(servers[s := v])
  {
  }

  // ---- Wake-ups

  lemma {:induction false} RunStructure(st: State, steps: seq<Step>)
    requires Structure(st) && IsRun(st, steps)
    ensures Structure(After(st, steps))
    decreases |steps|
  {
    hide Structure, Do;
    if steps != [] {
      StructureStep(st, steps[0]);
      RunStructure(Do(st, steps[0]), steps[1..]);
    }
  }

  /** No lost wake-up: whenever the response coroutine waits for its event while a request is in the queue, its event is
      in the event queue and its handler is registered. */
  lemma NoLostWakeUp(n: nat, steps: seq<Step>)
    requires IsRun(Init(n), steps)
    ensures var st := After(Init(n), steps);
            st.rsp.Waiting? && st.queue != [] ==> RspEvent in st.events && st.rspRegistered
  {
    InitOk(n);
    RunStructure(Init(n), steps);
  }

  /** How many events are dispatched until the response coroutine's is. */
  function Ahead(events: seq<EventId>): (k: nat)
    ensures k <= |events| && (RspEvent in events ==> k < |events| && events[k] == RspEvent)
  {
    if events == [] || events[0] == RspEvent then 0 else 1 + Ahead(events[1..])
  }

  lemma {:induction false} AheadMore(events: seq<EventId>, more: seq<EventId>)
    requires RspEvent in events
    ensures RspEvent in events + more && Ahead(events + more) == Ahead(events)
  {
    if events[0] != RspEvent {
      assert (events + more)[1..] == events[1..] + more;
      AheadMore(events[1..], more);
    }
  }

  /** How many events a run dispatches. */
  function Dispatches(steps: seq<Step>): nat {
    if steps == [] then 0 else (if steps[0].Dispatch? then 1 else 0) + Dispatches(steps[1..])
  }

  /** Until its event is dispatched the response coroutine waits, the head of the queue stays, and its event only gets
      nearer to the head of the event queue. */
  lemma StillWaits(st: State, e: Step)
    requires WakeOk(st) && st.rsp.Waiting? && st.queue != [] && Enabled(st, e)
    requires !Wakes(st, e)
    ensures var st' := Do(st, e);
            st'.rsp.Waiting? && st'.queue != [] && st'.queue[0] == st.queue[0]
            && Ahead(st'.events) + (if e.Dispatch? then 1 else 0) == Ahead(st.events)
  {
    if e.Enqueue? { AheadMore(st.events, [RspEvent]); }
    if e.PostOther? { AheadMore(st.events, [Other]); }
  }

  /** What wakes the response coroutine when it waits with an entry in the queue. */
  predicate Wakes(st: State, e: Step) {
    e.Resume? || (e.Dispatch? && st.events != [] && st.events[0] == RspEvent)
  }

  lemma Woken(st: State, e: Step)
    requires WakeOk(st) && st.rsp.Waiting? && st.queue != [] && Wakes(st, e) && Enabled(st, e)
    ensures Do(st, e).rsp == Reading(st.queue[0])
  {
  }

  /** The first k steps are the first one and then k - 1 of the rest. */
  lemma FirstThen(st: State, steps: seq<Step>, k: nat)
    requires 0 < k <= |steps| && Enabled(st, steps[0]) && IsRun(Do(st, steps[0]), steps[1..][..k - 1])
    ensures IsRun(st, steps[..k]) && After(st, steps[..k]) == After(Do(st, steps[0]), steps[1..][..k - 1])
    ensures Dispatches(steps[..k]) == (if steps[0].Dispatch? then 1 else 0) + Dispatches(steps[1..][..k - 1])
  {
    hide Do, Enabled;
    assert steps[..k][0] == steps[0] && steps[..k][1..] == steps[1..][..k - 1];
  }

  /** So it does wake up: whatever else happens in between, at the latest when the events ahead of its own and its own
      have been dispatched it has come to serve the entry that is at the head of the queue. */
  lemma {:induction false} WakesUp(st: State, steps: seq<Step>) returns (k: nat)
    requires Structure(st) && st.rsp.Waiting? && st.queue != []
    requires IsRun(st, steps) && Dispatches(steps) > Ahead(st.events)
    ensures k <= |steps| && IsRun(st, steps[..k]) && After(st, steps[..k]).rsp == Reading(st.queue[0])
    ensures Dispatches(steps[..k]) <= Ahead(st.events) + 1
    decreases |steps|
  {
    hide QueueOk, ProperOk, BootOk;
    var st' := Do(st, steps[0]);
    if Wakes(st, steps[0]) {
      k := 1;
      Woken(st, steps[0]);
    } else {
      StructureStep(st, steps[0]);
      StillWaits(st, steps[0]);
      k := WakesUp(st', steps[1..]);
      k := k + 1;
    }
    FirstThen(st, steps, k);
  }
}
