/** Any sequence of reads through the buffer gives what an unbuffered reader gets (core/conn_io.c). */
module Readers {
  import opened Bytes
  import opened Streams
  import opened StrBufs
  import opened Conns

  /** One read: conn_getc; conn_getc and then conn_ungetc; conn_gets into an empty buffer; conn_read; conn_copy. */
  datatype Request = GetOne | Peek | GetText(limit: int) | ReadAll(len: nat) | CopyAll(len: nat)

  /** What it returns: a character; or a code and the bytes delivered to the caller or to the output. */
  datatype Reply = Char(ch: int) | Data(ret: int, data: seq<byte>)

  /** An unbuffered reader: the bytes not yet consumed, and whether the end was met. */
  datatype Source = Source(u: seq<byte>, closed: bool)

  /** What one read does to the unbuffered reader. */
  function After(s: Source, r: Request): Source {
    match r
    case GetOne => if s.u == [] then Source([], true) else s.(u := s.u[1..])
    case Peek =>
      if s.u == [] then Source([], true) else if AsChar(s.u[0]) == -1 then s.(u := s.u[1..]) else s
    case GetText(limit) =>
      var l := GetLine(s.u, [], limit);
      Source(l.rest, s.closed || (l.NoLine? && l.eof))
    case ReadAll(len) =>
      if s.closed then s else if len <= |s.u| then s.(u := s.u[len..]) else Source([], true)
    case CopyAll(len) => if len <= |s.u| then s.(u := s.u[len..]) else Source([], true)
  }

  /** What it answers. The bytes of a failed conn_read are not part of the answer. */
  function Answer(s: Source, r: Request): Reply {
    match r
    case GetOne => Char(if s.u == [] then -1 else AsChar(s.u[0]))
    case Peek => Char(if s.u == [] then -1 else AsChar(s.u[0]))
    case GetText(limit) =>
      var l := GetLine(s.u, [], limit);
      Data(if l.Line? then |l.text| else -1, l.text)
    case ReadAll(len) =>
      if !s.closed && len <= |s.u| then Data(0, s.u[..len]) else Data(-1, [])
    case CopyAll(len) => Data(if len <= |s.u| then 0 else -1, Take(s.u, len))
  }

  function AfterAll(s: Source, rs: seq<Request>): Source
    decreases |rs|
  {
    if rs == [] then s else AfterAll(After(s, rs[0]), rs[1..])
  }

  function Answers(s: Source, rs: seq<Request>): seq<Reply>
    decreases |rs|
  {
    if rs == [] then [] else [Answer(s, rs[0])] + Answers(After(s, rs[0]), rs[1..])
  }

  /** What a read sends to the output. */
  function Sent(s: Source, r: Request): seq<byte> {
    if r.CopyAll? then Take(s.u, r.len) else []
  }

  /** The bytes that the copies among the reads send to the output. */
  function Forwarded(s: Source, rs: seq<Request>): seq<byte>
    decreases |rs|
  {
    if rs == [] then [] else Sent(s, rs[0]) + Forwarded(After(s, rs[0]), rs[1..])
  }

  /** v is what is left of u after some of its bytes. */
  predicate EndOf(v: seq<byte>, u: seq<byte>) {
    |v| <= |u| && v == u[|u| - |v|..]
  }

  lemma EndOfEnd(w: seq<byte>, v: seq<byte>, u: seq<byte>)
    requires EndOf(w, v) && EndOf(v, u)
    ensures EndOf(w, u)
  {
  }

  lemma {:induction false} LineForward(u: seq<byte>, text: seq<byte>, limit: int)
    ensures EndOf(GetLine(u, text, limit).rest, u)
    decreases |u|
  {
    if |text| + 1 != limit && u != [] && AsChar(u[0]) != -1 && u[0] != CR && u[0] != LF {
      LineForward(u[1..], text + [u[0]], limit);
      EndOfEnd(GetLine(u, text, limit).rest, u[1..], u);
    }
  }

  /** The bytes left are the end of the bytes there were: reading only ever moves forward. */
  lemma {:induction false} ReadsForward(s: Source, rs: seq<Request>)
    ensures EndOf(AfterAll(s, rs).u, s.u)
    decreases |rs|
  {
    if rs != [] {
      var next := After(s, rs[0]);
      assert EndOf(next.u, s.u) by {
        if rs[0].GetText? { LineForward(s.u, [], rs[0].limit); }
      }
      ReadsForward(next, rs[1..]);
      EndOfEnd(AfterAll(next, rs[1..]).u, next.u, s.u);
    }
  }

  ghost function Reading(c: Conn): Source
    reads c, c.buf
    requires c.Valid()
  {
    Source(c.Unread(), c.stat == Closed)
  }

  /** conn_getc, and conn_ungetc unless that failed. */
  method PeekOne(input: Conn) returns (a: Reply)
    requires input.Valid()
    modifies input`bufS, input`bufE, input`stat, input`arriving, input.buf
    ensures input.Valid()
    ensures Reading(input) == After(old(Reading(input)), Peek) && a == Answer(old(Reading(input)), Peek)
  {
    ghost var u := input.Unread();
    var ch := input.GetC();
    if ch != -1 {
      input.UngetC();
      assert u != [] ==> [u[0]] + u[1..] == u;
    }
    a := Char(ch);
  }

  /** What a copy may leave of the stream u when the output takes fewer bytes than wanted: nothing that the output took,
      and all but what the buffer held of the rest. */
  ghost predicate Leaves(u: seq<byte>, buffered: nat, len: nat, room: nat, left: seq<byte>) {
    EndOf(left, u) && Min(len, buffered) <= |u| - |left| <= Max(Min(len, buffered), room)
  }

  lemma LeavesEnd(u: seq<byte>, used: nat)
    requires used <= |u|
    ensures EndOf(u[used..], u) && |u[used..]| == |u| - used
  {
  }

  /** What a read promises, given the output o: the unbuffered reader's answer exactly when the output has room for what
      is sent, and then the unbuffered reader's stream. */
  ghost predicate ReadDone(s: Source, r: Request, o: Out, a: Reply, s': Source) {
    (a == Answer(s, r) <==> |Sent(s, r)| <= o.room) && (|Sent(s, r)| <= o.room ==> s' == After(s, r)) && EndOf(s'.u, s.u)
  }

  /** One read through the buffer. */
  method Serve(input: Conn, output: Conn, r: Request) returns (a: Reply)
    requires input.Valid() && output.Valid() && input != output && input.buf != output.buf
    modifies output`sent, output`room, output`tx, output`stat, output`arriving,
             input`bufS, input`bufE, input`stat, input`arriving, input.buf
    ensures input.Valid() && output.Valid()
    ensures ReadDone(old(Reading(input)), r, old(output.Output()), a, Reading(input))
    ensures output.Output() == Wrote(old(output.Output()), Sent(old(Reading(input)), r))
    ensures r.CopyAll? ==>
              Leaves(old(input.Unread()), old(input.Buffered()), r.len, old(output.Output()).room, input.Unread())
  {
    hide Wrote, GetLine, EndOf;
    WroteTwice(output.Output(), [], []);
    ghost var u := input.Unread();
    StepForward(Reading(input), r);
    match r
    case GetOne =>
      var ch := input.GetC();
      a := Char(ch);
    case Peek =>
      a := PeekOne(input);
    case GetText(limit) =>
      var sb := new StrBuf();
      var ret := input.Gets(limit, sb);
      a := Data(ret, sb.p[..sb.len]);
    case ReadAll(len) =>
      var dst := new byte[len](_ => 0);
      var ret := input.Read(dst, len);
      a := Data(ret, if ret == 0 then dst[..len] else []);
    case CopyAll(len) =>
      a := ServeCopy(input, output, len);
  }

  lemma StepForward(s: Source, r: Request)
    ensures EndOf(After(s, r).u, s.u)
  {
    if r.GetText? { LineForward(s.u, [], r.limit); }
  }

  method ServeCopy(input: Conn, output: Conn, len: nat) returns (a: Reply)
    requires input.Valid() && output.Valid() && input != output && input.buf != output.buf
    modifies output`sent, output`room, output`tx, output`stat, output`arriving,
             input`bufS, input`bufE, input`stat, input`arriving, input.buf
    ensures input.Valid() && output.Valid()
    ensures ReadDone(old(Reading(input)), CopyAll(len), old(output.Output()), a, Reading(input))
    ensures output.Output() == Wrote(old(output.Output()), Take(old(input.Unread()), len))
    ensures Leaves(old(input.Unread()), old(input.Buffered()), len, old(output.Output()).room, input.Unread())
  {
    hide Wrote, EndOf;
    var n := |output.sent|;
    ghost var u, o := input.Unread(), output.Output();
    ghost var used;
    var ret;
    ret, used := Copy(output, input, len);
    WroteData(o, Take(u, len));
    LeavesEnd(u, used);
    a := Data(ret, output.sent[n..]);
  }

  /** What a write adds to what was sent: as much of the data as there is room for. */
  lemma WroteData(o: Out, data: seq<byte>)
    ensures Wrote(o, data).sent[|o.sent|..] == Take(data, o.room) && o.sent <= Wrote(o, data).sent
  {
  }

  /** The first k answers are the unbuffered reader's. */
  ghost predicate AnswersUpTo(s: Source, rs: seq<Request>, answers: seq<Reply>, k: nat)
    requires k <= |rs| == |answers|
  {
    answers[..k] == Answers(s, rs[..k])
  }

  /** They are exactly when the output has room for what the first k reads send. */
  ghost predicate RightIffFits(s: Source, rs: seq<Request>, answers: seq<Reply>, k: nat, room: nat)
    requires k <= |rs| == |answers|
  {
    AnswersUpTo(s, rs, answers, k) <==> |Forwarded(s, rs[..k])| <= room
  }

  /** Any sequence of reads through the buffer, whatever recv and send do at a time: the answers, up to any point, are the
      unbuffered reader's exactly when the output has room for what the copies up to that point send, and then so is
      the stream that is left. The output gets those bytes as far as it has room in any case. */
  method ServeAll(input: Conn, output: Conn, rs: seq<Request>) returns (answers: seq<Reply>)
    requires input.Valid() && output.Valid() && input != output && input.buf != output.buf
    modifies output`sent, output`room, output`tx, output`stat, output`arriving,
             input`bufS, input`bufE, input`stat, input`arriving, input.buf
    ensures input.Valid() && output.Valid() && |answers| == |rs|
    ensures answers == Answers(old(Reading(input)), rs) <==> |Forwarded(old(Reading(input)), rs)| <= old(output.Output()).room
    ensures |Forwarded(old(Reading(input)), rs)| <= old(output.Output()).room ==>
              Reading(input) == AfterAll(old(Reading(input)), rs)
    ensures forall k :: 0 <= k <= |rs| ==> RightIffFits(old(Reading(input)), rs, answers, k, old(output.Output()).room)
    ensures output.Output() == Wrote(old(output.Output()), Forwarded(old(Reading(input)), rs))
    ensures EndOf(input.Unread(), old(input.Unread()))
    decreases |rs|
  {
    hide Wrote, After, Answer, Sent, EndOf, Leaves, RightIffFits;
    ghost var s, o := Reading(input), output.Output();
    if rs == [] {
      NothingAsked(s, o);
      return [];
    }
    var a := Serve(input, output, rs[0]);
    ghost var s1, o1 := Reading(input), output.Output();
    var others := ServeAll(input, output, rs[1..]);
    answers := [a] + others;
    WroteRoom(o, Sent(s, rs[0]));
    WroteOnward(o, Sent(s, rs[0]), Forwarded(s1, rs[1..]), Forwarded(After(s, rs[0]), rs[1..]));
    EndOfEnd(input.Unread(), s1.u, s.u);
    forall k | 0 <= k <= |rs| ensures RightIffFits(s, rs, answers, k, o.room) {
      AnswersGrow(s, rs, a, s1, others, o, k);
    }
    AllAnswers(s, rs, answers, o.room);
  }

  lemma NothingAsked(s: Source, o: Out)
    ensures EndOf(s.u, s.u) && Wrote(o, Forwarded(s, [])) == o && RightIffFits(s, [], [], 0, o.room)
  {
    WroteTwice(o, [], []);
  }

  /** Once the output is full it does not matter what comes. */
  lemma WroteOnward(o: Out, x: seq<byte>, y: seq<byte>, z: seq<byte>)
    requires |x| <= o.room ==> y == z
    ensures Wrote(Wrote(o, x), y) == Wrote(o, x + z)
  {
    WroteTwice(o, x, y);
    WroteTwice(o, x, z);
    WroteShort(o, x, x + y);
    WroteShort(o, x, x + z);
  }

  lemma AllAnswers(s: Source, rs: seq<Request>, answers: seq<Reply>, room: nat)
    requires |answers| == |rs| && RightIffFits(s, rs, answers, |rs|, room)
    ensures answers == Answers(s, rs) <==> |Forwarded(s, rs)| <= room
  {
    assert answers[..|rs|] == answers && rs[..|rs|] == rs;
  }

  /** The answers after the first one continue those that begin with it. */
  lemma AnswersGrow(s: Source, rs: seq<Request>, a: Reply, s1: Source, others: seq<Reply>, o: Out, k: nat)
    requires rs != [] && |others| == |rs| - 1 && k <= |rs| && ReadDone(s, rs[0], o, a, s1)
    requires forall i :: 0 <= i <= |others| ==> RightIffFits(s1, rs[1..], others, i, Wrote(o, Sent(s, rs[0])).room)
    ensures RightIffFits(s, rs, [a] + others, k, o.room)
  {
    hide Answer, After, Sent, EndOf;
    WroteRoom(o, Sent(s, rs[0]));
    hide Wrote;
    var all := [a] + others;
    if k == 0 {
      assert all[..0] == [] && rs[..0] == [];
    } else {
      assert rs[..k][0] == rs[0] && rs[..k][1..] == rs[1..][..k - 1];
      assert all[..k] == [a] + others[..k - 1];
      var next := After(s, rs[0]);
      assert Answers(s, rs[..k]) == [Answer(s, rs[0])] + Answers(next, rs[1..][..k - 1]);
      FirstAndOthers(a, others[..k - 1], Answer(s, rs[0]), Answers(next, rs[1..][..k - 1]));
      assert RightIffFits(s1, rs[1..], others, k - 1, Wrote(o, Sent(s, rs[0])).room);
    }
  }

  lemma FirstAndOthers(a: Reply, rest: seq<Reply>, b: Reply, bs: seq<Reply>)
    ensures [a] + rest == [b] + bs <==> a == b && rest == bs
  {
    if [a] + rest == [b] + bs {
      assert ([a] + rest)[0] == a && ([b] + bs)[0] == b;
      assert ([a] + rest)[1..] == rest && ([b] + bs)[1..] == bs;
    }
  }

  method CopyFromSocket(b: byte) returns (ret: int, ghost s: Source, ghost o: Out)
    ensures s == Source([b], false) && o == Out([], 0, 0, false) && ret == -1
  {
    hide Wrote;
    var input := new Conn([b], 0);
    var output := new Conn([], 0);
    s, o := Reading(input), output.Output();
    ghost var used;
    ret, used := Copy(output, input, 1);
  }

  /** A connection whose only byte has been received. */
  method Buffering(b: byte) returns (input: Conn)
    ensures input.Valid() && fresh(input) && fresh(input.buf) && input.stat != Closed
    ensures input.Unread() == [b] && input.Buffered() == 1
  {
    input := new Conn([b], 0);
    var _ := input.GetC();
    input.UngetC();
    assert input.arriving == [] && input.Unread() == [b];
  }

  method CopyFromBuffer(b: byte) returns (ret: int, ghost s: Source, ghost o: Out)
    ensures s == Source([b], false) && o == Out([], 0, 0, false) && ret == 0
  {
    hide Wrote;
    var input := Buffering(b);
    var output := new Conn([], 0);
    s, o := Reading(input), output.Output();
    ghost var used;
    ret, used := Copy(output, input, 1);
  }

  /** What conn_copy answers to an output that fails depends on the buffer: with the same byte unread and the same
      output, it fails when the byte is still in the socket, and reports success when it was buffered. */
  method CopyShowsBuffer(b: byte)
    returns (fromSocket: int, fromBuffer: int, ghost s1: Source, ghost s2: Source, ghost o1: Out, ghost o2: Out)
    ensures s1 == s2 && o1 == o2 && fromSocket != fromBuffer
  {
    fromSocket, s1, o1 := CopyFromSocket(b);
    fromBuffer, s2, o2 := CopyFromBuffer(b);
  }
}
