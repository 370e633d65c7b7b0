/** The order of the responses of the pipelining protocol: when each answers the request whose turn it is
    (core/net_handle.c, core/net_http.c). */
module Ordering {
  import opened Pipeline

  // ---- What a server owes

  /** The requests from p on that went to server s. */
  function Owed(targets: seq<nat>, s: nat, p: nat): seq<nat>
    decreases |targets| - p
  {
    if p >= |targets| then [] else (if targets[p] == s then [p] else []) + Owed(targets, s, p + 1)
  }

  lemma {:induction false} OwedMore(targets: seq<nat>, s: nat, p: nat, t: nat)
    requires p <= |targets|
    ensures Owed(targets + [t], s, p) == Owed(targets, s, p) + (if t == s then [|targets|] else [])
    decreases |targets| - p
  {
    if p < |targets| {
      OwedMore(targets, s, p + 1, t);
    } else {
      assert Owed(targets + [t], s, p + 1) == [];
    }
  }

  /** A server owes answers to the given requests: the responses on their way are for the first of them, each request's
      interim responses before its final one, and the rest are still to be answered. */
  ghost predicate Flow(wire: seq<Response>, pending: seq<nat>, owed: seq<nat>)
    decreases |wire|
  {
    if wire == [] then pending == owed
    else owed != [] && wire[0].req == owed[0] && Flow(wire[1..], pending, if wire[0].final then owed[1..] else owed)
  }

  lemma {:induction false} FlowAsked(wire: seq<Response>, pending: seq<nat>, owed: seq<nat>, k: nat)
    requires Flow(wire, pending, owed)
    ensures Flow(wire, pending + [k], owed + [k])
    decreases |wire|
  {
    if wire != [] {
      var next := if wire[0].final then owed[1..] else owed;
      FlowAsked(wire[1..], pending, next, k);
      assert (owed + [k])[1..] == owed[1..] + [k];
    }
  }

  lemma {:induction false} FlowAnswered(wire: seq<Response>, pending: seq<nat>, owed: seq<nat>, r: Response)
    requires Flow(wire, pending, owed) && pending != [] && r.req == pending[0]
    ensures Flow(wire + [r], if r.final then pending[1..] else pending, owed)
    decreases |wire|
  {
    if wire == [] {
      assert (wire + [r])[1..] == [];
    } else {
      assert (wire + [r])[1..] == wire[1..] + [r];
      FlowAnswered(wire[1..], pending, if wire[0].final then owed[1..] else owed, r);
    }
  }

  lemma {:induction false} FirstOwed(targets: seq<nat>, s: nat, p: nat)
    requires Owed(targets, s, p) != []
    ensures p <= Owed(targets, s, p)[0] < |targets| && targets[Owed(targets, s, p)[0]] == s
    decreases |targets| - p
  {
    if targets[p] != s { FirstOwed(targets, s, p + 1); }
  }

  /** Every server owes answers to the requests from the given one on that went to it, and to no others. */
  ghost predicate Flows(servers: seq<Server>, targets: seq<nat>, from: nat) {
    forall s :: 0 <= s < |servers| ==> Owes(servers[s], targets, s, from)
  }

  ghost predicate Owes(v: Server, targets: seq<nat>, s: nat, from: nat) {
    Flow(v.wire, v.pending, Owed(targets, s, from))
  }

  lemma FlowsAsked(servers: seq<Server>, targets: seq<nat>, from: nat, s: nat)
    requires Flows(servers, targets, from) && s < |servers| && from <= |targets|
    ensures Flows(servers[s := servers[s].(pending := servers[s].pending + [|targets|])], targets + [s], from)
  {
    var servers' := servers[s := servers[s].(pending := servers[s].pending + [|targets|])];
    forall v | 0 <= v < |servers'| ensures Owes(servers'[v], targets + [s], v, from) {
      assert Owes(servers[v], targets, v, from);
      OwedMore(targets, v, from, s);
      FlowAsked(servers[v].wire, servers[v].pending, Owed(targets, v, from), |targets|);
      assert Owed(targets, v, from) + [] == Owed(targets, v, from);
    }
  }

  lemma FlowsAnswered(servers: seq<Server>, targets: seq<nat>, from: nat, s: nat, r: Response)
    requires Flows(servers, targets, from) && s < |servers| && servers[s].pending != [] && r.req == servers[s].pending[0]
    ensures var v := servers[s];
            Flows(servers[s := Server(if r.final then v.pending[1..] else v.pending, v.wire + [r])], targets, from)
  {
    assert Owes(servers[s], targets, s, from);
    FlowAnswered(servers[s].wire, servers[s].pending, Owed(targets, s, from), r);
  }

  /** The response that is read first at the server of request `from` is for that request. */
  lemma FlowsRead(servers: seq<Server>, targets: seq<nat>, from: nat)
    requires Flows(servers, targets, from) && from < |targets| && targets[from] < |servers|
    requires servers[targets[from]].wire != []
    ensures var s := targets[from];
            var v, r := servers[s], servers[s].wire[0];
            r.req == from && Flows(servers[s := v.(wire := v.wire[1..])], targets, if r.final then from + 1 else from)
  {
    var s := targets[from];
    var r, servers' := servers[s].wire[0], servers[s := servers[s].(wire := servers[s].wire[1..])];
    assert Owes(servers[s], targets, s, from);
    forall v | 0 <= v < |servers'| ensures Owes(servers'[v], targets, v, if r.final then from + 1 else from) {
      assert Owes(servers[v], targets, v, from);
      assert v == s ==> Owed(targets, v, from)[1..] == Owed(targets, v, from + 1);
      assert v != s ==> Owed(targets, v, from) == Owed(targets, v, from + 1);
    }
  }

  /** A response that is read first at any server is for a request from `from` on that went there. */
  lemma FlowsFirst(servers: seq<Server>, targets: seq<nat>, from: nat, s: nat)
    requires Flows(servers, targets, from) && s < |servers| && servers[s].wire != []
    ensures var k := servers[s].wire[0].req; from <= k < |targets| && targets[k] == s
  {
    assert Owes(servers[s], targets, s, from);
    FirstOwed(targets, s, from);
  }

  // ---- Responses in the order of the requests

  /** How many of the responses are final. */
  function Finals(rs: seq<Response>): nat {
    if rs == [] then 0 else Finals(rs[..|rs| - 1]) + if rs[|rs| - 1].final then 1 else 0
  }

  /** Each response answers the request whose turn it is: as many final responses precede it as requests do. */
  ghost predicate InOrder(rs: seq<Response>) {
    forall i :: 0 <= i < |rs| ==> rs[i].req == Finals(rs[..i])
  }

  lemma InOrderMore(rs: seq<Response>, r: Response)
    requires InOrder(rs) && r.req == Finals(rs)
    ensures InOrder(rs + [r]) && Finals(rs + [r]) == Finals(rs) + if r.final then 1 else 0
  {
    assert (rs + [r])[..|rs|] == rs;
    forall i | 0 <= i < |rs + [r]| ensures (rs + [r])[i].req == Finals((rs + [r])[..i]) {
      assert (rs + [r])[..i] == rs[..i];
    }
  }

  lemma NotInOrder(rs: seq<Response>, r: Response)
    requires r.req != Finals(rs)
    ensures !InOrder(rs + [r])
  {
    assert (rs + [r])[|rs|] == r && (rs + [r])[..|rs|] == rs;
  }

  /** The responses that were taken from the servers: those written to the client and the one being forwarded. */
  function Seen(st: State): seq<Response> {
    st.out + if st.rsp.Sending? then [st.rsp.r] else []
  }

  /** What was taken is in order, and each server owes exactly the rest. */
  ghost predicate Ordered(st: State) {
    InOrder(Seen(st)) && Finals(Seen(st)) <= |st.targets| && Flows(st.servers, st.targets, Finals(Seen(st)))
  }

  /** The response coroutine is at the connection of the first request without a final response. */
  predicate InTurn(st: State) {
    st.rsp.Reading? && Finals(st.out) < |st.targets| && st.rsp.e.server == st.targets[Finals(st.out)]
  }

  /** Whatever the codes of the responses, order is kept by each step but a read out of turn. */
  lemma OrderStep(st: State, e: Step)
    requires BootOk(st) && Ordered(st) && Enabled(st, e) && (e.Read? ==> InTurn(st))
    ensures Ordered(Do(st, e))
  {
    hide Flows, InOrder, Finals;
    match e
    case Begin =>
    case Forward(s) => FlowsAsked(st.servers, st.targets, Finals(Seen(st)), s);
    case Enqueue =>
    case BodyDone =>
    case Answer(s, code, final) =>
      FlowsAnswered(st.servers, st.targets, Finals(Seen(st)), s, Response(st.servers[s].pending[0], code, final));
    case Read => ReadInTurn(st);
    case Written => assert Seen(Do(st, e)) == Seen(st);
    case Dispatch => assert Seen(Do(st, e)) == Seen(st);
    case PostOther =>
    case Resume =>
  }

  lemma ReadInTurn(st: State)
    requires Ordered(st) && Enabled(st, Read) && InTurn(st)
    ensures Ordered(DoRead(st))
  {
    hide Flows, InOrder, Finals;
    assert Seen(st) == st.out;
    FlowsRead(st.servers, st.targets, Finals(st.out));
    InOrderMore(st.out, DoRead(st).rsp.r);
    assert Seen(DoRead(st)) == st.out + [DoRead(st).rsp.r];
  }

  /** A read out of turn breaks it: the response is for a later request. */
  lemma ReadOutOfTurn(st: State)
    requires Ordered(st) && Enabled(st, Read) && !InTurn(st)
    ensures !InOrder(Seen(DoRead(st)))
    ensures DoRead(st).rsp.r.req > Finals(st.out)
  {
    hide Flows, Finals;
    assert Seen(st) == st.out;
    FlowsFirst(st.servers, st.targets, Finals(st.out), st.rsp.e.server);
    NotInOrder(st.out, DoRead(st).rsp.r);
  }

  /** What was taken stays taken. */
  lemma SeenGrows(st: State, e: Step)
    requires BootOk(st) && Enabled(st, e)
    ensures Seen(st) <= Seen(Do(st, e))
  {
    if e.Written? { assert Seen(st) == DoWritten(st).out; }
  }

  lemma InOrderPrefix(a: seq<Response>, b: seq<Response>)
    requires InOrder(b) && a <= b
    ensures InOrder(a)
  {
    forall i | 0 <= i < |a| ensures a[i].req == Finals(a[..i]) {
      assert a[i] == b[i] && a[..i] == b[..i];
    }
  }

  // ---- Whole runs

  /** Whenever the run reads a response, it reads it in turn. */
  predicate ReadsInTurn(st: State, steps: seq<Step>)
    requires IsRun(st, steps)
    decreases |steps|
  {
    steps == [] || ((steps[0].Read? ==> InTurn(st)) && ReadsInTurn(Do(st, steps[0]), steps[1..]))
  }

  lemma InitOrdered(n: nat)
    ensures Structure(Init(n)) && Ordered(Init(n))
  {
    InitOk(n);
  }

  lemma {:induction false} RunDisorder(st: State, steps: seq<Step>)
    requires Structure(st) && IsRun(st, steps) && !InOrder(Seen(st))
    ensures !InOrder(Seen(After(st, steps)))
    decreases |steps|
  {
    hide InOrder, Seen, BootOk, QueueOk, ProperOk, Do, Enabled;
    if steps != [] {
      StructureStep(st, steps[0]);
      var st' := Do(st, steps[0]);
      SeenGrows(st, steps[0]);
      if InOrder(Seen(st')) { InOrderPrefix(Seen(st), Seen(st')); }
      RunDisorder(st', steps[1..]);
    }
  }

  lemma {:induction false} RunInTurn(st: State, steps: seq<Step>)
    requires Structure(st) && Ordered(st) && IsRun(st, steps)
    ensures ReadsInTurn(st, steps) ==> Ordered(After(st, steps))
    ensures !ReadsInTurn(st, steps) ==> !InOrder(Seen(After(st, steps)))
    decreases |steps|
  {
    hide InOrder, Flows, Seen, Finals, BootOk, QueueOk, ProperOk, Do, Enabled, InTurn;
    if steps != [] {
      StructureStep(st, steps[0]);
      if steps[0].Read? && !InTurn(st) {
        OutOfTurn(st, steps[0]);
        RunDisorder(Do(st, steps[0]), steps[1..]);
      } else {
        OrderStep(st, steps[0]);
        RunInTurn(Do(st, steps[0]), steps[1..]);
      }
    }
  }

  lemma OutOfTurn(st: State, e: Step)
    requires Ordered(st) && e.Read? && Enabled(st, e) && !InTurn(st)
    ensures !InOrder(Seen(Do(st, e)))
  {
    ReadOutOfTurn(st);
  }

  /** Exactly when the responses are in the order of the requests, over every run: when each response was read from the
      connection of the first request that had no final response yet. */
  lemma OrderExact(n: nat, steps: seq<Step>)
    requires IsRun(Init(n), steps)
    ensures InOrder(Seen(After(Init(n), steps))) <==> ReadsInTurn(Init(n), steps)
    ensures var st := After(Init(n), steps);
            !st.rsp.Sending? ==> (InOrder(st.out) <==> ReadsInTurn(Init(n), steps))
  {
    hide IsRun, ReadsInTurn, InOrder;
    InitOrdered(n);
    RunInTurn(Init(n), steps);
    var st := After(Init(n), steps);
    assert !st.rsp.Sending? ==> Seen(st) == st.out;
  }

  predicate AllTo(targets: seq<nat>, s: nat) {
    forall i :: 0 <= i < |targets| ==> targets[i] == s
  }

  /** With all requests forwarded on one connection every read is in turn, whatever interim responses there are. */
  lemma {:induction false} OneTarget(st: State, steps: seq<Step>, s: nat)
    requires Structure(st) && Ordered(st) && IsRun(st, steps)
    requires AllTo(After(st, steps).targets, s)
    ensures ReadsInTurn(st, steps)
    decreases |steps|
  {
    hide InOrder, Flows, Finals, BootOk, QueueOk, ProperOk, Do, Enabled, InTurn;
    if steps != [] {
      StructureStep(st, steps[0]);
      if steps[0].Read? {
        TargetsGrow(st, steps);
        OnlyTarget(st, s);
      }
      OrderStep(st, steps[0]);
      OneTarget(Do(st, steps[0]), steps[1..], s);
    }
  }

  lemma {:induction false} TargetsGrow(st: State, steps: seq<Step>)
    requires IsRun(st, steps)
    ensures st.targets <= After(st, steps).targets
    decreases |steps|
  {
    if steps != [] { TargetsGrow(Do(st, steps[0]), steps[1..]); }
  }

  lemma OnlyTarget(st: State, s: nat)
    requires Ordered(st) && Enabled(st, Read) && AllTo(st.targets, s)
    ensures InTurn(st)
  {
    hide Flows, Finals;
    assert Seen(st) == st.out;
    FlowsFirst(st.servers, st.targets, Finals(st.out), st.rsp.e.server);
  }

  /** So the responses of one connection are in order in every run. */
  lemma OneConnection(n: nat, steps: seq<Step>, s: nat)
    requires IsRun(Init(n), steps) && AllTo(After(Init(n), steps).targets, s)
    ensures InOrder(Seen(After(Init(n), steps)))
  {
    InitOrdered(n);
    OneTarget(Init(n), steps, s);
    OrderExact(n, steps);
  }

  // ---- Interim responses that are taken for final ones

  /** An interim response that removes its request from the queue as if it were the final one. */
  predicate Skips(r: Response) { !r.final && r.code != 100 }

  predicate NoSkip(st: State) {
    forall i :: 0 <= i < |st.pops| ==> !Skips(st.pops[i])
  }

  lemma {:induction false} AllFinal(rs: seq<Response>)
    ensures Finals(rs) <= |rs| && (Finals(rs) == |rs| <==> forall i :: 0 <= i < |rs| ==> rs[i].final)
    decreases |rs|
  {
    if rs != [] {
      var front := rs[..|rs| - 1];
      AllFinal(front);
      assert forall i :: 0 <= i < |front| ==> front[i] == rs[i];
    }
  }

  /** Every final response that was forwarded has removed an entry, and no response with the code 100 has. */
  ghost predicate Popped(st: State) {
    Finals(st.pops) == Finals(st.out) && forall i :: 0 <= i < |st.pops| ==> st.pops[i].code != 100
  }

  lemma FinalsMore(rs: seq<Response>, r: Response)
    ensures Finals(rs + [r]) == Finals(rs) + if r.final then 1 else 0
  {
    assert (rs + [r])[..|rs|] == rs;
  }

  lemma PoppedStep(st: State, e: Step)
    requires ProperOk(st) && Popped(st) && Enabled(st, e)
    ensures Popped(Do(st, e)) && st.pops <= Do(st, e).pops
  {
    hide Finals, ProperWires;
    if e.Written? {
      FinalsMore(st.out, st.rsp.r);
      FinalsMore(st.pops, st.rsp.r);
    }
  }

  lemma SkipsCount(st: State)
    requires Popped(st)
    ensures Finals(st.out) <= |st.pops| && (NoSkip(st) <==> Finals(st.out) == |st.pops|)
  {
    AllFinal(st.pops);
  }

  /** Each entry was removed by a response to its own request. */
  ghost predicate Owned(st: State) {
    forall i :: 0 <= i < |st.pops| ==> st.pops[i].req == i
  }

  lemma OwnedStep(st: State, e: Step)
    requires Ordered(st) && Popped(st) && Owned(st) && NoSkip(st) && Enabled(st, e)
    ensures Owned(Do(st, e))
  {
    hide Finals, Flows;
    SkipsCount(st);
    if e.Written? {
      var seen := Seen(st);
      assert seen[|st.out|] == st.rsp.r && seen[..|st.out|] == st.out;
      assert seen[|st.out|].req == Finals(seen[..|st.out|]);
    }
  }

  lemma NoSkipInTurn(st: State)
    requires QueueOk(st) && WakeOk(st) && Popped(st) && NoSkip(st) && Enabled(st, Read)
    ensures InTurn(st)
  {
    hide Finals;
    SkipsCount(st);
  }

  lemma {:induction false} RunPopped(st: State, steps: seq<Step>)
    requires Structure(st) && Popped(st) && IsRun(st, steps)
    ensures Popped(After(st, steps)) && st.pops <= After(st, steps).pops
    decreases |steps|
  {
    hide QueueOk, WakeOk, ProperOk, Popped, Do, Enabled;
    if steps != [] {
      StructureStep(st, steps[0]);
      PoppedStep(st, steps[0]);
      RunPopped(Do(st, steps[0]), steps[1..]);
    }
  }

  lemma NoSkipBefore(a: State, b: State)
    requires a.pops <= b.pops && NoSkip(b)
    ensures NoSkip(a)
  {
    assert forall i :: 0 <= i < |a.pops| ==> a.pops[i] == b.pops[i];
  }

  lemma {:induction false} RunNoSkip(st: State, steps: seq<Step>)
    requires Structure(st) && Ordered(st) && Popped(st) && Owned(st) && IsRun(st, steps) && NoSkip(After(st, steps))
    ensures ReadsInTurn(st, steps) && Owned(After(st, steps))
    decreases |steps|
  {
    hide QueueOk, WakeOk, BootOk, ProperOk, Ordered, Popped, Owned, NoSkip, InTurn, Do, Enabled;
    if steps != [] {
      var st' := Do(st, steps[0]);
      RunPopped(st, steps);
      NoSkipBefore(st, After(st, steps));
      if steps[0].Read? { NoSkipInTurn(st); }
      StructureStep(st, steps[0]);
      assert BootOk(st) by { BootFirst(st); }
      OrderStep(st, steps[0]);
      PoppedStep(st, steps[0]);
      OwnedStep(st, steps[0]);
      RunNoSkip(st', steps[1..]);
    }
  }

  lemma BootFirst(st: State)
    requires Structure(st)
    ensures BootOk(st)
  {
  }

  lemma InitPopped(n: nat)
    ensures Popped(Init(n)) && Owned(Init(n)) && NoSkip(Init(n))
  {
  }

  /** As long as no interim response other than a 100 is taken for a final one, all responses are in order: the k-th final
      one answers the k-th request. */
  lemma ResponsesInOrder(n: nat, steps: seq<Step>)
    requires IsRun(Init(n), steps) && NoSkip(After(Init(n), steps))
    ensures ReadsInTurn(Init(n), steps) && InOrder(Seen(After(Init(n), steps)))
  {
    InitOrdered(n);
    InitPopped(n);
    RunNoSkip(Init(n), steps);
    OrderExact(n, steps);
  }

  /** Exactly when no interim response other than a 100 was taken for a final one, as many entries have left the queue as
      final responses were forwarded; each has then left it with the final response to its own request. */
  lemma EachOwnAnswer(n: nat, steps: seq<Step>)
    requires IsRun(Init(n), steps)
    ensures var st := After(Init(n), steps);
            Finals(st.out) <= |st.pops| && (NoSkip(st) <==> |st.pops| == Finals(st.out))
    ensures var st := After(Init(n), steps);
            NoSkip(st) ==> forall i :: 0 <= i < |st.pops| ==> st.pops[i].final && st.pops[i].req == i
  {
    InitOrdered(n);
    InitPopped(n);
    RunPopped(Init(n), steps);
    var st := After(Init(n), steps);
    SkipsCount(st);
    if NoSkip(st) { RunNoSkip(Init(n), steps); }
  }

  // ---- The requests that have no final answer

  /** The entries of a queue for a server. */
  function EntriesFor(queue: seq<Entry>, s: nat): seq<nat> {
    if queue == [] then [] else (if queue[0].server == s then [queue[0].req] else []) + EntriesFor(queue[1..], s)
  }

  /** The requests with a final response on its way. */
  function FinalsOf(wire: seq<Response>): seq<nat> {
    if wire == [] then [] else (if wire[0].final then [wire[0].req] else []) + FinalsOf(wire[1..])
  }

  /** The requests that a server has got and not finally answered, as far as the proxy has read. */
  function Unanswered(v: Server): seq<nat> { FinalsOf(v.wire) + v.pending }

  /** The request that was forwarded to the server and is not yet in the queue, if there is one. */
  function LastForwarded(st: State, s: nat): seq<nat> {
    if st.req.Forwarded? && st.req.server == s then [st.req.k] else []
  }

  lemma {:induction false} FlowIs(wire: seq<Response>, pending: seq<nat>, owed: seq<nat>)
    requires Flow(wire, pending, owed)
    ensures FinalsOf(wire) + pending == owed
    decreases |wire|
  {
    if wire != [] { FlowIs(wire[1..], pending, if wire[0].final then owed[1..] else owed); }
  }

  lemma {:induction false} OwedIs(queue: seq<Entry>, from: nat, targets: seq<nat>, s: nat)
    requires Holds(queue, from, targets)
    ensures Owed(targets, s, from) == EntriesFor(queue, s) + Owed(targets, s, from + |queue|)
    decreases |queue|
  {
    if queue != [] {
      HoldsTail(queue, from, targets);
      OwedIs(queue[1..], from + 1, targets, s);
      assert queue[0] == Entry(from, targets[from]);
      var first := if targets[from] == s then [from] else [];
      var rest, after := EntriesFor(queue[1..], s), Owed(targets, s, from + |queue|);
      assert Owed(targets, s, from) == first + (rest + after);
      assert EntriesFor(queue, s) + after == first + rest + after;
    }
  }

  /** The request whose final answer is being forwarded, if it came from this server. */
  function BeingAnswered(st: State, s: nat): seq<nat> {
    if st.rsp.Sending? && st.rsp.r.final && st.rsp.e.server == s then [st.rsp.r.req] else []
  }

  /** The requests of a server whose final answer has not gone out, as the server and the connections have it. */
  function Owing(st: State, s: nat): seq<nat> {
    BeingAnswered(st, s) + if s < |st.servers| then Unanswered(st.servers[s]) else []
  }

  /** The same as the proxy has it. */
  function Listed(st: State, s: nat): seq<nat> {
    EntriesFor(st.queue, s) + LastForwarded(st, s)
  }

  // Both sides are counted over all servers.

  function Total(f: nat -> nat, n: nat): nat {
    if n == 0 then 0 else Total(f, n - 1) + f(n - 1)
  }

  lemma {:induction false} TotalDiffers(f: nat -> nat, g: nat -> nat, n: nat, t: nat, d: int)
    requires forall s :: 0 <= s < n ==> g(s) == f(s) + if s == t then d else 0
    ensures Total(g, n) == Total(f, n) + if t < n then d else 0
  {
    if n > 0 { TotalDiffers(f, g, n - 1, t, d); }
  }

  lemma {:induction false} TotalZero(f: nat -> nat, n: nat)
    requires forall s :: 0 <= s < n ==> f(s) == 0
    ensures Total(f, n) == 0
  {
    if n > 0 { TotalZero(f, n - 1); }
  }

  function OwingCount(st: State): nat -> nat { s => |Owing(st, s)| }

  function ListedCount(st: State): nat -> nat { s => |Listed(st, s)| }

  function EntriesCount(queue: seq<Entry>): nat -> nat { s => |EntriesFor(queue, s)| }

  lemma {:induction false} FinalsOfMore(wire: seq<Response>, r: Response)
    ensures |FinalsOf(wire + [r])| == |FinalsOf(wire)| + if r.final then 1 else 0
  {
    if wire == [] {
      assert (wire + [r])[1..] == [] && FinalsOf([]) == [];
    } else {
      assert (wire + [r])[1..] == wire[1..] + [r];
      FinalsOfMore(wire[1..], r);
    }
  }

  lemma UnansweredAsked(v: Server, k: nat)
    ensures |Unanswered(v.(pending := v.pending + [k]))| == |Unanswered(v)| + 1
  {
  }

  lemma UnansweredSent(v: Server, r: Response)
    requires v.pending != []
    ensures |Unanswered(Server(if r.final then v.pending[1..] else v.pending, v.wire + [r]))| == |Unanswered(v)|
  {
    FinalsOfMore(v.wire, r);
  }

  lemma UnansweredTaken(v: Server)
    requires v.wire != []
    ensures |Unanswered(v)| == |Unanswered(v.(wire := v.wire[1..]))| + if v.wire[0].final then 1 else 0
  {
  }

  lemma OwingRead(st: State, s: nat)
    requires Enabled(st, Read)
    ensures |Owing(DoRead(st), s)| == |Owing(st, s)|
  {
    hide Unanswered;
    UnansweredTaken(st.servers[st.rsp.e.server]);
  }

  lemma OwingAnswered(st: State, t: nat, code: int, final: bool, s: nat)
    requires Enabled(st, Answer(t, code, final))
    ensures |Owing(DoAnswer(st, t, code, final), s)| == |Owing(st, s)|
  {
    hide Unanswered;
    UnansweredSent(st.servers[t], Response(st.servers[t].pending[0], code, final));
  }

  /** What a step adds to the requests that a server owes. */
  lemma OwingStep(st: State, e: Step, s: nat)
    requires BootOk(st) && Enabled(st, e)
    ensures |Owing(Do(st, e), s)| == |Owing(st, s)| + OwingAdded(st, e, s)
  {
    hide Unanswered, DoRead, DoAnswer;
    match e
    case Begin =>
    case Forward(t) => UnansweredAsked(st.servers[t], |st.targets|);
    case Enqueue =>
    case BodyDone =>
    case Answer(t, code, final) => OwingAnswered(st, t, code, final, s);
    case Read => OwingRead(st, s);
    case Written =>
    case Dispatch =>
    case PostOther =>
    case Resume =>
  }

  function OwingAdded(st: State, e: Step, s: nat): int
    requires Enabled(st, e)
  {
    match e
    case Forward(t) => if t == s then 1 else 0
    case Written => if st.rsp.r.final && st.rsp.e.server == s then -1 else 0
    case _ => 0
  }

  /** Every request forwarded is either owed by a server or was finally answered. */
  ghost predicate Counted(st: State) {
    Total(OwingCount(st), |st.servers|) + Finals(st.out) == |st.targets|
  }

  /** What a step adds to the counts. */
  lemma SizesStep(st: State, e: Step)
    requires Enabled(st, e)
    ensures |Do(st, e).servers| == |st.servers|
    ensures |Do(st, e).targets| == |st.targets| + if e.Forward? then 1 else 0
    ensures Finals(Do(st, e).out) == Finals(st.out) + if e.Written? && st.rsp.r.final then 1 else 0
  {
    hide Finals;
    if e.Written? { FinalsMore(st.out, st.rsp.r); }
  }

  /** The server that a step concerns must be there. */
  predicate Within(st: State) {
    st.rsp.Sending? ==> st.rsp.e.server < |st.servers|
  }

  lemma TotalStep(st: State, e: Step, n: nat)
    requires BootOk(st) && Enabled(st, e) && n == |st.servers| && Within(st)
    ensures Total(OwingCount(Do(st, e)), n) == Total(OwingCount(st), n)
      + (if e.Forward? then 1 else 0) - (if e.Written? && st.rsp.r.final then 1 else 0)
  {
    hide Owing, BootOk, Do;
    var t := if e.Forward? then e.s else if e.Written? then st.rsp.e.server else 0;
    var d := if e.Forward? then 1 else if e.Written? && st.rsp.r.final then -1 else 0;
    forall s | 0 <= s < n ensures OwingCount(Do(st, e))(s) == OwingCount(st)(s) + if s == t then d else 0 {
      OwingStep(st, e, s);
    }
    TotalDiffers(OwingCount(st), OwingCount(Do(st, e)), n, t, d);
  }

  lemma CountedStep(st: State, e: Step)
    requires BootOk(st) && Counted(st) && Enabled(st, e) && Within(st)
    ensures Counted(Do(st, e))
  {
    hide Finals, OwingCount, Total, BootOk, Do, Within;
    SizesStep(st, e);
    TotalStep(st, e, |st.servers|);
  }

  lemma SendingWithin(st: State)
    requires QueueOk(st) && WakeOk(st)
    ensures Within(st)
  {
  }

  lemma {:induction false} RunCounted(st: State, steps: seq<Step>)
    requires Structure(st) && Counted(st) && IsRun(st, steps)
    ensures Counted(After(st, steps))
    decreases |steps|
  {
    hide QueueOk, WakeOk, ProperOk, Counted, Do, Enabled;
    if steps != [] {
      StructureStep(st, steps[0]);
      BootFirst(st);
      SendingWithin(st);
      CountedStep(st, steps[0]);
      RunCounted(Do(st, steps[0]), steps[1..]);
    }
  }

  lemma InitCounted(n: nat)
    ensures Counted(Init(n))
  {
    TotalZero(OwingCount(Init(n)), n);
  }

  /** The entries of a queue are each in the list of one server. */
  lemma {:induction false} EntriesTotal(queue: seq<Entry>, n: nat)
    requires forall i :: 0 <= i < |queue| ==> queue[i].server < n
    ensures Total(EntriesCount(queue), n) == |queue|
  {
    if queue == [] {
      TotalZero(EntriesCount(queue), n);
    } else {
      EntriesTotal(queue[1..], n);
      TotalDiffers(EntriesCount(queue[1..]), EntriesCount(queue), n, queue[0].server, 1);
    }
  }

  /** So what the proxy has listed is what was forwarded and not removed. */
  lemma ListedTotal(st: State)
    requires QueueOk(st)
    ensures Total(ListedCount(st), |st.servers|) + |st.pops| == |st.targets|
  {
    hide EntriesFor, Total;
    EntriesTotal(st.queue, |st.servers|);
    var t := if st.req.Forwarded? then st.req.server else 0;
    var d := if st.req.Forwarded? then 1 else 0;
    TotalDiffers(EntriesCount(st.queue), ListedCount(st), |st.servers|, t, d);
  }

  /** While nothing was skipped, each server owes what is listed for it. */
  lemma OwingIsListed(st: State, s: nat)
    requires Structure(st) && Ordered(st) && Popped(st) && NoSkip(st) && s < |st.servers|
    ensures Owing(st, s) == Listed(st, s)
  {
    hide Finals, FinalsOf, EntriesFor, Owed, Holds, Popped, ProperWires;
    SkipsCount(st);
    OwedIs(st.queue, |st.pops|, st.targets, s);
    LastOwed(st, s);
    OwingIsOwed(st, s);
  }

  lemma LastOwed(st: State, s: nat)
    requires QueueOk(st)
    ensures Owed(st.targets, s, |st.pops| + |st.queue|) == LastForwarded(st, s)
  {
    assert Owed(st.targets, s, |st.targets|) == [];
  }

  /** What a server owes begins with the request that is being answered, if that is the server's. */
  lemma OwingIsOwed(st: State, s: nat)
    requires QueueOk(st) && WakeOk(st) && Ordered(st) && Finals(st.out) == |st.pops| && s < |st.servers|
    ensures Owing(st, s) == Owed(st.targets, s, |st.pops|)
  {
    hide FinalsOf;
    var v, from := st.servers[s], Finals(Seen(st));
    assert Owes(v, st.targets, s, from);
    FlowIs(v.wire, v.pending, Owed(st.targets, s, from));
    if st.rsp.Sending? {
      FinalsMore(st.out, st.rsp.r);
      SendsFirst(st);
      assert st.queue[0] == Entry(|st.pops|, st.targets[|st.pops|]);
    } else {
      assert Seen(st) == st.out;
    }
  }

  lemma SendsFirst(st: State)
    requires InOrder(Seen(st)) && st.rsp.Sending?
    ensures st.rsp.r.req == Finals(st.out)
  {
    var seen := Seen(st);
    assert seen[|st.out|] == st.rsp.r && seen[..|st.out|] == st.out;
    assert seen[|st.out|].req == Finals(seen[..|st.out|]);
  }

  lemma {:induction false} SameTotal(f: nat -> nat, g: nat -> nat, n: nat)
    requires forall s :: 0 <= s < n ==> f(s) == g(s)
    ensures Total(f, n) == Total(g, n)
  {
    TotalDiffers(f, g, n, n, 0);
  }

  /** In any state of any run: exactly when no interim response other than a 100 was taken for a final one, the requests
      whose final answer a server owes (or whose final answer from it is being forwarded) are the entries of the queue
      that went to it, in order, and then at most one that is not yet in the queue; and this for each server. */
  lemma UnansweredAreQueued(n: nat, steps: seq<Step>)
    requires IsRun(Init(n), steps)
    ensures var st := After(Init(n), steps);
            NoSkip(st) <==> forall s :: 0 <= s < |st.servers| ==> Owing(st, s) == Listed(st, s)
  {
    hide IsRun, After, Ordered, Counted, Popped, NoSkip, Owing, Listed, Owned;
    var st := After(Init(n), steps);
    Reached(n, steps);
    if NoSkip(st) {
      forall s | 0 <= s < |st.servers| ensures Owing(st, s) == Listed(st, s) { OwingIsListed(st, s); }
    } else if forall s :: 0 <= s < |st.servers| ==> Owing(st, s) == Listed(st, s) {
      SkipsAreMissed(st);
    }
  }

  lemma SkipsAreMissed(st: State)
    requires QueueOk(st) && Counted(st) && Popped(st)
    requires forall s :: 0 <= s < |st.servers| ==> Owing(st, s) == Listed(st, s)
    ensures NoSkip(st)
  {
    hide Total, Finals, Owing, Listed, Popped;
    SkipsCount(st);
    ListedTotal(st);
    SameTotal(OwingCount(st), ListedCount(st), |st.servers|);
  }

  lemma Reached(n: nat, steps: seq<Step>)
    requires IsRun(Init(n), steps)
    ensures var st := After(Init(n), steps);
            Structure(st) && Counted(st) && Popped(st) && (NoSkip(st) ==> Ordered(st))
  {
    hide Ordered, Counted, Popped, NoSkip, Owned, QueueOk, WakeOk, ProperOk;
    InitOrdered(n);
    InitPopped(n);
    InitCounted(n);
    RunStructure(Init(n), steps);
    RunPopped(Init(n), steps);
    RunCounted(Init(n), steps);
    if NoSkip(After(Init(n), steps)) {
      RunNoSkip(Init(n), steps);
      RunInTurn(Init(n), steps);
    }
  }

  // ---- A run in which an answer overtakes

  lemma {:induction false} RunThen(st: State, a: seq<Step>, b: seq<Step>)
    requires IsRun(st, a) && IsRun(After(st, a), b)
    ensures IsRun(st, a + b) && After(st, a + b) == After(After(st, a), b)
    decreases |a|
  {
    if a == [] {
      assert a + b == b;
    } else {
      assert (a + b)[1..] == a[1..] + b;
      RunThen(Do(st, a[0]), a[1..], b);
    }
  }

  lemma Single(st: State, a: Step)
    requires Enabled(st, a)
    ensures IsRun(st, [a]) && After(st, [a]) == Do(st, a)
  {
    hide Enabled, Do;
    assert [a][0] == a && [a][1..] == [];
    assert IsRun(Do(st, a), []) && After(Do(st, a), []) == Do(st, a);
  }

  lemma Pair(st: State, a: Step, st': State, b: Step)
    requires Enabled(st, a) && Do(st, a) == st' && Enabled(st', b)
    ensures IsRun(st, [a, b]) && After(st, [a, b]) == Do(st', b)
  {
    hide Enabled, Do, IsRun, After;
    Single(st, a);
    Single(st', b);
    RunThen(st, [a], [b]);
    assert [a] + [b] == [a, b];
  }

  /** A state with two servers and no handler missing. */
  function Shot(req: ReqAt, rsp: RspAt, queue: seq<Entry>, events: seq<EventId>, v: Server, w: Server, targets: seq<nat>,
                out: seq<Response>): State {
    State(Running, req, rsp, queue, rsp.Waiting?, true, true, events, [v, w], targets, out, out)
  }

  lemma TwoServers(servers: seq<Server>, v: Server, w: Server)
    requires |servers| == 2 && servers[0].pending == v.pending && servers[0].wire == v.wire
    requires servers[1].pending == w.pending && servers[1].wire == w.wire
    ensures servers == [v, w]
  {
  }

  const E0: Entry := Entry(0, 0)
  const E1: Entry := Entry(1, 1)
  const EARLY: Response := Response(0, 103, false)
  const LATER: Response := Response(1, 200, true)

  /** An interim response other than a 100: request 0 goes to server 0, request 1 to server 1; server 0 answers 103 first,
      and the final response to request 1 overtakes the one to request 0. */
  function Beginning(): seq<Step> { [Begin, Begin] + [Begin, Begin] }

  function TwoRequests(): seq<Step> { [Dispatch, Forward(0)] + ([Enqueue, BodyDone] + [Forward(1), Enqueue]) }

  function TwoAnswers(): seq<Step> { [Answer(0, 103, false), Answer(1, 200, true)] }

  function TwoReads(): seq<Step> { [Dispatch, Read] + ([Written, Read] + [Written]) }

  function Begun(): State { Shot(ReqStart, Waiting, [], [ReqEvent, RspEvent], Server([], []), Server([], []), [], []) }

  function Requested(): State {
    Shot(Body, Waiting, [E0, E1], [RspEvent, RspEvent, RspEvent], Server([0], []), Server([1], []), [0, 1], [])
  }

  function Answered(): State {
    Shot(Body, Waiting, [E0, E1], [RspEvent, RspEvent, RspEvent], Server([0], [EARLY]), Server([], [LATER]), [0, 1], [])
  }

  lemma Begins()
    ensures IsRun(Init(2), Beginning()) && After(Init(2), Beginning()) == Begun()
  {
    var s1 := Do(Init(2), Begin);
    Pair(Init(2), Begin, s1, Begin);
    var s2 := Do(s1, Begin);
    Pair(s2, Begin, Do(s2, Begin), Begin);
    RunThen(Init(2), [Begin, Begin], [Begin, Begin]);
    assert Init(2).servers == [Server([], []), Server([], [])];
  }

  lemma Requests()
    ensures IsRun(Begun(), TwoRequests()) && After(Begun(), TwoRequests()) == Requested()
  {
    var none := Server([], []);
    var s1 := Shot(Fetching, Waiting, [], [RspEvent], none, none, [], []);
    var s2 := Shot(Forwarded(0, 0), Waiting, [], [RspEvent], Server([0], []), none, [0], []);
    assert Do(Begun(), Dispatch) == s1;
    TwoServers(DoForward(s1, 0).servers, Server([0], []), none);
    assert Do(s1, Forward(0)) == s2;
    Pair(Begun(), Dispatch, s1, Forward(0));
    QueueFirst(s2);
    RunThen(Begun(), [Dispatch, Forward(0)], [Enqueue, BodyDone] + [Forward(1), Enqueue]);
  }

  lemma QueueFirst(s2: State)
    requires s2 == Shot(Forwarded(0, 0), Waiting, [], [RspEvent], Server([0], []), Server([], []), [0], [])
    ensures var steps := [Enqueue, BodyDone] + [Forward(1), Enqueue]; IsRun(s2, steps) && After(s2, steps) == Requested()
  {
    var none := Server([], []);
    var s3 := Shot(Body, Waiting, [E0], [RspEvent, RspEvent], Server([0], []), none, [0], []);
    assert Do(s2, Enqueue) == s3;
    Pair(s2, Enqueue, s3, BodyDone);
    var s4 := s3.(req := Fetching);
    var s5 := Shot(Forwarded(1, 1), Waiting, [E0], [RspEvent, RspEvent], Server([0], []), Server([1], []), [0, 1], []);
    TwoServers(DoForward(s4, 1).servers, Server([0], []), Server([1], []));
    assert Do(s4, Forward(1)) == s5;
    Pair(s4, Forward(1), s5, Enqueue);
    RunThen(s2, [Enqueue, BodyDone], [Forward(1), Enqueue]);
  }

  lemma Answers()
    ensures IsRun(Requested(), TwoAnswers()) && After(Requested(), TwoAnswers()) == Answered()
  {
    var s1 := Requested().(servers := [Server([0], [EARLY]), Server([1], [])]);
    TwoServers(DoAnswer(Requested(), 0, 103, false).servers, Server([0], [EARLY]), Server([1], []));
    assert Do(Requested(), Answer(0, 103, false)) == s1;
    TwoServers(DoAnswer(s1, 1, 200, true).servers, Server([0], [EARLY]), Server([], [LATER]));
    assert Do(s1, Answer(1, 200, true)) == Answered();
    Pair(Requested(), Answer(0, 103, false), s1, Answer(1, 200, true));
  }

  lemma Reads()
    ensures IsRun(Answered(), TwoReads()) && After(Answered(), TwoReads()).out == [EARLY, LATER]
  {
    var rest := Server([], [LATER]);
    var s1 := Shot(Body, Reading(E0), [E0, E1], [RspEvent, RspEvent], Server([0], [EARLY]), rest, [0, 1], []);
    var s2 := Shot(Body, Sending(E0, EARLY), [E0, E1], [RspEvent, RspEvent], Server([0], []), rest, [0, 1], []);
    assert Do(Answered(), Dispatch) == s1;
    TwoServers(DoRead(s1).servers, Server([0], []), rest);
    assert Do(s1, Read) == s2;
    Pair(Answered(), Dispatch, s1, Read);
    LastReads(s2);
    RunThen(Answered(), [Dispatch, Read], [Written, Read] + [Written]);
  }

  lemma LastReads(s2: State)
    requires s2 == Shot(Body, Sending(E0, EARLY), [E0, E1], [RspEvent, RspEvent], Server([0], []), Server([], [LATER]),
                        [0, 1], [])
    ensures var steps := [Written, Read] + [Written]; IsRun(s2, steps) && After(s2, steps).out == [EARLY, LATER]
  {
    var s3 := Shot(Body, Reading(E1), [E1], [RspEvent, RspEvent], Server([0], []), Server([], [LATER]), [0, 1], [EARLY]);
    var s4 := Shot(Body, Sending(E1, LATER), [E1], [RspEvent, RspEvent], Server([0], []), Server([], []), [0, 1], [EARLY]);
    assert Do(s2, Written) == s3;
    TwoServers(DoRead(s3).servers, Server([0], []), Server([], []));
    assert Do(s3, Read) == s4;
    Pair(s2, Written, s3, Read);
    Single(s4, Written);
    RunThen(s2, [Written, Read], [Written]);
  }

  function SkippingRun(): seq<Step> { Beginning() + (TwoRequests() + (TwoAnswers() + TwoReads())) }

  lemma SkippingOvertakes()
    ensures IsRun(Init(2), SkippingRun())
    ensures var out := After(Init(2), SkippingRun()).out; out == [EARLY, LATER] && !InOrder(out)
  {
    hide Do, Enabled, Beginning, TwoRequests, TwoAnswers, TwoReads, Begun, Requested, Answered;
    Reads();
    Answers();
    Requests();
    Begins();
    RunThen(Requested(), TwoAnswers(), TwoReads());
    RunThen(Begun(), TwoRequests(), TwoAnswers() + TwoReads());
    RunThen(Init(2), Beginning(), TwoRequests() + (TwoAnswers() + TwoReads()));
    var out := [EARLY, LATER];
    assert out[..1] == [out[0]] && Finals([out[0]]) == 0;
    assert out[1].req != Finals(out[..1]);
  }
}
