/** Forwarding a message body from one connection to another (core/net_http.c). */
module Transfers {
  import opened Bytes
  import opened Streams
  import opened StrBufs
  import opened Conns
  import opened Headers
  import opened Chunked
  import opened NetDatas
  import opened Numerals

  /** The code of an outcome that the C standard leaves open. */
  const OUTSIDE_C := -2

  /** conn_gets into an emptied buffer. */
  method ReadLine(src: Conn, limit: int, sb: StrBuf) returns (ret: int)
    requires src.Valid() && sb.Valid() && sb.p != src.buf
    modifies src`bufS, src`bufE, src`stat, src`arriving, src.buf, sb, sb.p
    ensures src.Valid() && sb.Valid() && (sb.p == old(sb.p) || fresh(sb.p))
    ensures var l := GetLine(old(src.Unread()), [], limit);
            src.Unread() == l.rest && sb.Contents() == l.text && ret == (if l.Line? then |l.text| else -1)
            && (l.Line? ==> src.stat == old(src.stat))
  {
    hide GetLine;
    sb.Reset();
    ret := src.Gets(limit, sb);
  }

  /** The line goes out with CRLF after it. */
  method SendLine(dst: Conn, sb: StrBuf) returns (ret: int)
    requires dst.Valid() && sb.Valid()
    modifies dst`sent, dst`room, dst`tx, dst`stat, dst`arriving, sb, sb.p
    ensures dst.Valid() && sb.Valid() && (sb.p == old(sb.p) || fresh(sb.p))
    ensures sb.Contents() == old(sb.Contents()) + CRLF && dst.Output() == Wrote(old(dst.Output()), sb.Contents())
    ensures ret == if !old(dst.Output()).closed && sb.len <= old(dst.Output()).room then 0 else -1
  {
    CStringPlain();
    sb.Cat(CRLF);
    ret := dst.Write(sb.p, 0, sb.len);
  }

  /** The round of a chunk in terms of its line and its data. */
  lemma RoundParts(u: seq<byte>)
    ensures var l, r := GetLine(u, [], HTTP_CHUNK_HEADER_MAXLEN), ChunkRound(u);
            if l.NoLine? || l.text == [] then r.Stop? && r.end == Broken && r.w == []
            else
              var head, size := l.text + CRLF, ChunkSize(l.text + CRLF);
              head <= r.w
              && (size.Undefined? ==> r == Stop(head, l.rest, OutsideC))
              && (size.Size? && size.len == 0 ==> r == Last(head, l.rest))
              && (size.Size? && size.len != 0 ==> r.w == head + Take(l.rest, size.len + 2))
              && (size.Size? && size.len != 0 ==>
                    if size.len + 2 > |l.rest| then r.Stop? && r.end == Broken else r.More? && r.rest == l.rest[size.len + 2..])
  {
    hide GetLine, ChunkSize;
  }

  /** What a round of a forwarding loop promises: it wrote what it should, it stops when it has to, and when it goes
      on it left the input where it should. */
  ghost predicate RoundDone(r: Round, o: Out, ret: int, last: bool, out: Out, left: seq<byte>) {
    out == Wrote(o, r.w)
    && (ret == 0 ==> last == r.Last? && !r.Stop? && left == r.rest && (last ==> |r.w| <= o.room))
    && (ret != 0 && |r.w| <= o.room ==> r.Stop? && ret == EndCode(r.end))
  }

  /** What a whole loop promises: it wrote what it should as far as there was room, it succeeds exactly when the flow
      is complete and there was room for it, and then it left the input where it should. */
  ghost predicate FlowDone(f: Flow, o: Out, ret: int, out: Out, left: seq<byte>) {
    out == Wrote(o, f.w) && (|f.w| <= o.room ==> ret == EndCode(f.end)) && (|f.w| > o.room ==> ret != 0)
    && (ret == 0 ==> left == f.rest)
  }

  function EndCode(end: End): int {
    match end
    case Complete => 0
    case Broken => -1
    case OutsideC => OUTSIDE_C
  }

  /** One round of the loop over chunks. */
  method ForwardChunk(dst: Conn, src: Conn, sb: StrBuf) returns (ret: int, last: bool)
    requires dst.Valid() && src.Valid() && sb.Valid() && dst != src && dst.buf != src.buf
    requires sb.p != src.buf && sb.p != dst.buf
    modifies dst`sent, dst`room, dst`tx, dst`stat, dst`arriving,
             src`bufS, src`bufE, src`stat, src`arriving, src.buf, sb, sb.p
    ensures dst.Valid() && src.Valid() && sb.Valid() && (sb.p == old(sb.p) || fresh(sb.p))
    ensures RoundDone(ChunkRound(old(src.Unread())), old(dst.Output()), ret, last, dst.Output(), src.Unread())
    ensures ret == 0 ==> src.stat == old(src.stat)
  {
    hide GetLine, Wrote, ChunkSize, ChunkRound;
    ghost var o, r := dst.Output(), ChunkRound(src.Unread());
    WroteTwice(o, [], []);
    RoundParts(src.Unread());
    last := false;
    ret := ReadLine(src, HTTP_CHUNK_HEADER_MAXLEN, sb);
    if ret <= 0 { return -1, false; }
    ret := SendLine(dst, sb);
    ghost var head := sb.Contents();
    WroteShort(o, head, r.w);
    WroteRoom(o, head);
    if ret != 0 { return -1, false; }
    var size := ChunkSize(sb.p[..sb.len]);
    if size.Undefined? { return OUTSIDE_C, false; }
    if size.len == 0 { return 0, true; }
    WroteTwice(o, head, Take(src.Unread(), size.len + 2));
    ghost var used;
    ret, used := Copy(dst, src, size.len + 2);
  }

  /** One round of the loop over trailer lines. */
  method ForwardTrailer(dst: Conn, src: Conn, sb: StrBuf) returns (ret: int, last: bool)
    requires dst.Valid() && src.Valid() && sb.Valid() && dst != src && dst.buf != src.buf
    requires sb.p != src.buf && sb.p != dst.buf
    modifies dst`sent, dst`room, dst`tx, dst`stat, dst`arriving,
             src`bufS, src`bufE, src`stat, src`arriving, src.buf, sb, sb.p
    ensures dst.Valid() && src.Valid() && sb.Valid() && (sb.p == old(sb.p) || fresh(sb.p))
    ensures RoundDone(TrailerRound(old(src.Unread())), old(dst.Output()), ret, last, dst.Output(), src.Unread())
    ensures ret == 0 ==> src.stat == old(src.stat)
  {
    hide GetLine, Wrote;
    ghost var u := src.Unread();
    WroteTwice(dst.Output(), [], []);
    var len := ReadLine(src, HTTP_HEADER_MAXLEN, sb);
    if len < 0 { return len, false; }
    assert len == 0 ==> sb.Contents() + CRLF == CRLF;
    ret := SendLine(dst, sb);
    last := len == 0;
  }

  /** A round that goes on, and the rest of the flow. */
  lemma RoundsOn(f: Flow, o: Out, done: seq<byte>, w: seq<byte>, g: Flow)
    requires f == Prefixed(done, Prefixed(w, g))
    ensures f == Prefixed(done + w, g) && Wrote(Wrote(o, done), w) == Wrote(o, done + w)
  {
    WroteTwice(o, done, w);
    assert done + (w + g.w) == done + w + g.w;
  }

  /** A round that fails: what it wrote is all that the flow could write. */
  lemma RoundFails(f: Flow, o: Out, done: seq<byte>, r: Round, g: Flow, ret: int, out: Out, left: seq<byte>, last: bool)
    requires f == Prefixed(done, g) && r.w <= g.w && (r.Stop? ==> g == Flow(r.w, r.rest, r.end))
    requires RoundDone(r, Wrote(o, done), ret, last, out, left) && ret != 0
    ensures FlowDone(f, o, ret, out, left)
  {
    WroteTwice(o, done, r.w);
    WroteRoom(o, done);
    assert done + r.w <= done + g.w;
    WroteShort(o, done + r.w, f.w);
  }

  /** A last round that succeeds. */
  lemma RoundEnds(f: Flow, o: Out, done: seq<byte>, r: Round, ret: int, out: Out, left: seq<byte>, last: bool)
    requires f == Prefixed(done, Flow(r.w, r.rest, Complete)) && r.Last?
    requires RoundDone(r, Wrote(o, done), ret, last, out, left) && ret == 0 && last && r.w != []
    ensures FlowDone(f, o, ret, out, left)
  {
    WroteTwice(o, done, r.w);
    WroteRoom(o, done);
  }

  /** The loop over the trailer lines. */
  method ForwardTrailers(dst: Conn, src: Conn, sb: StrBuf) returns (ret: int)
    requires dst.Valid() && src.Valid() && sb.Valid() && dst != src && dst.buf != src.buf
    requires sb.p != src.buf && sb.p != dst.buf
    modifies dst`sent, dst`room, dst`tx, dst`stat, dst`arriving,
             src`bufS, src`bufE, src`stat, src`arriving, src.buf, sb, sb.p
    ensures dst.Valid() && src.Valid() && sb.Valid()
    ensures FlowDone(TrailerFlow(old(src.Unread())), old(dst.Output()), ret, dst.Output(), src.Unread())
    ensures ret == 0 ==> src.stat == old(src.stat)
  {
    hide TrailerRound, Wrote;
    ghost var f, o, done := TrailerFlow(src.Unread()), dst.Output(), [];
    WroteTwice(o, [], []);
    while true
      invariant dst.Valid() && src.Valid() && sb.Valid() && (sb.p == old(sb.p) || fresh(sb.p))
      invariant sb.p != src.buf && sb.p != dst.buf
      invariant f == Prefixed(done, TrailerFlow(src.Unread())) && dst.Output() == Wrote(o, done)
      invariant src.stat == old(src.stat)
      decreases |src.Unread()|
    {
      ghost var r, g := TrailerRound(src.Unread()), TrailerFlow(src.Unread());
      var last;
      ret, last := ForwardTrailer(dst, src, sb);
      if ret != 0 {
        RoundFails(f, o, done, r, g, ret, dst.Output(), src.Unread(), last);
        return;
      }
      if last {
        RoundEnds(f, o, done, r, ret, dst.Output(), src.Unread(), last);
        return;
      }
      RoundsOn(f, o, done, r.w, TrailerFlow(src.Unread()));
      done := done + r.w;
    }
  }

  /** A flow that continues another that fitted. */
  lemma FlowAfter(f: Flow, o: Out, done: seq<byte>, g: Flow, ret: int, out: Out, left: seq<byte>)
    requires f == Prefixed(done, g) && |done| <= o.room && FlowDone(g, Wrote(o, done), ret, out, left)
    ensures FlowDone(f, o, ret, out, left)
  {
    WroteTwice(o, done, g.w);
    WroteRoom(o, done);
  }

  /** The last chunk's line fitted, and so did everything before it. */
  lemma LastFits(o: Out, done: seq<byte>, w: seq<byte>)
    requires w != [] && |w| <= Wrote(o, done).room
    ensures |done + w| <= o.room
  {
    WroteRoom(o, done);
  }

  /** The loop over the chunks, and then the one over the trailer lines. */
  method ForwardChunks(dst: Conn, src: Conn) returns (ret: int)
    requires dst.Valid() && src.Valid() && dst != src && dst.buf != src.buf
    modifies dst`sent, dst`room, dst`tx, dst`stat, dst`arriving,
             src`bufS, src`bufE, src`stat, src`arriving, src.buf
    ensures dst.Valid() && src.Valid()
    ensures FlowDone(ChunkFlow(old(src.Unread())), old(dst.Output()), ret, dst.Output(), src.Unread())
    ensures ret == 0 ==> src.stat == old(src.stat)
  {
    hide ChunkRound, TrailerFlow, Wrote;
    ghost var f, o, done := ChunkFlow(src.Unread()), dst.Output(), [];
    WroteTwice(o, [], []);
    var sb := new StrBuf();
    while true
      invariant dst.Valid() && src.Valid() && sb.Valid() && fresh(sb) && fresh(sb.p)
      invariant f == Prefixed(done, ChunkFlow(src.Unread())) && dst.Output() == Wrote(o, done)
      invariant src.stat == old(src.stat)
      decreases |src.Unread()|
    {
      ghost var r, g := ChunkRound(src.Unread()), ChunkFlow(src.Unread());
      var last;
      ret, last := ForwardChunk(dst, src, sb);
      if ret != 0 {
        RoundFails(f, o, done, r, g, ret, dst.Output(), src.Unread(), last);
        return;
      }
      if last { LastFits(o, done, r.w); }
      ghost var after := if last then TrailerFlow(src.Unread()) else ChunkFlow(src.Unread());
      RoundsOn(f, o, done, r.w, after);
      done := done + r.w;
      if last {
        ret := ForwardTrailers(dst, src, sb);
        FlowAfter(f, o, done, after, ret, dst.Output(), src.Unread());
        return;
      }
    }
  }

  predicate Digit(b: byte) { 48 <= b <= 57 }

  predicate AllDigits(d: seq<byte>) {
    forall i :: 0 <= i < |d| ==> Digit(d[i])
  }

  function DecimalEnd(s: seq<byte>, i: nat): (r: nat)
    requires i <= |s|
    ensures i <= r <= |s| && AllDigits(s[i..r]) && (r < |s| ==> !Digit(s[r]))
    decreases |s| - i
  {
    if i < |s| && Digit(s[i]) then
      var r := DecimalEnd(s, i + 1);
      assert s[i..r] == [s[i]] + s[i + 1..r];
      r
    else i
  }

  function DecimalValue(d: seq<byte>): nat
    requires AllDigits(d)
  {
    if d == [] then 0 else DecimalValue(d[..|d| - 1]) * 10 + d[|d| - 1] - 48
  }

  /** The number that atoi reads, before it is made an int. */
  function AtoiValue(s: seq<byte>): int {
    var i := SkipWhite(s, 0);
    var j := if At(s, i, 43) || At(s, i, 45) then i + 1 else i;
    var n: int := DecimalValue(s[j..DecimalEnd(s, j)]);
    if At(s, i, 45) then -n else n
  }

  /** atoi, where C defines it. */
  function Atoi(s: seq<byte>): Size {
    var v := AtoiValue(s);
    if -0x8000_0000 <= v <= 0x7fff_ffff then Size(v) else Undefined
  }

  // ---- What atoi reads, in terms of what is written

  /** The decimal digits and their values are those written down in Numerals. */
  lemma DigitIs(b: byte, v: nat)
    requires v < 10
    ensures IsDigitOf(b, v) <==> Digit(b) && b - 48 == v
  {
    DigitsAre(v);
  }

  lemma DigitListed(b: byte)
    ensures Digit(b) <==> exists v: nat :: v < 10 && IsDigitOf(b, v)
  {
    if Digit(b) { DigitIs(b, b - 48); }
    forall v: nat | v < 10 && IsDigitOf(b, v) ensures Digit(b) { DigitIs(b, v); }
  }

  lemma {:induction false} DecimalValueIs(d: seq<byte>, n: nat)
    ensures Spells(d, n, 10) <==> AllDigits(d) && DecimalValue(d) == n
    decreases |d|
  {
    if d != [] {
      var front, b := d[..|d| - 1], d[|d| - 1];
      DecimalValueIs(front, Front(n, 10));
      DigitIs(b, n % 10);
      AllDigitsFront(d);
      if AllDigits(d) { LastDigit(DecimalValue(front), b - 48, n, 10); }
    }
  }

  lemma AllDigitsFront(d: seq<byte>)
    requires d != []
    ensures AllDigits(d) <==> AllDigits(d[..|d| - 1]) && Digit(d[|d| - 1])
  {
  }

  lemma {:induction false} DecimalStop(s: seq<byte>, i: nat, e: nat)
    requires i <= e <= |s| && AllDigits(s[i..e]) && (e < |s| ==> !Digit(s[e]))
    ensures DecimalEnd(s, i) == e
    decreases e - i
  {
    if i < e {
      assert s[i..e][0] == s[i] && s[i + 1..e] == s[i..e][1..];
      DecimalStop(s, i + 1, e);
    }
  }

  /** A string as atoi takes it apart: white space, a sign, decimal digits, the rest; each part as long as it can be. */
  datatype Number = Number(white: seq<byte>, sign: seq<byte>, digits: seq<byte>, tail: seq<byte>)

  function NumberText(c: Number): seq<byte> { c.white + (c.sign + (c.digits + c.tail)) }

  predicate IsNumber(c: Number) {
    AllWhite(c.white) && (c.sign == [] || c.sign == [43] || c.sign == [45])
    && AllDigits(c.digits) && (c.tail != [] ==> !Digit(c.tail[0]))
    && (c.sign == [] && c.digits == [] && c.tail != [] ==> !White(c.tail[0]) && c.tail[0] != 43 && c.tail[0] != 45)
  }

  function Signed(sign: seq<byte>, k: int): int { if sign == [45] then -k else k }

  /** The string begins with the numeral of n in base 10, after white space and a sign; without digits that is 0. */
  ghost predicate ReadsAs(s: seq<byte>, n: int) {
    exists c, k: nat ::
      IsNumber(c) && NumberText(c) == s && Spells(c.digits, k, 10) && n == Signed(c.sign, k)
  }

  lemma NumberStarts(c: Number)
    requires IsNumber(c)
    ensures var s, j := NumberText(c), |c.white| + |c.sign|;
            j <= |s| && SkipWhite(s, 0) == |c.white| && s[j..] == c.digits + c.tail
            && (At(s, |c.white|, 43) <==> c.sign == [43]) && (At(s, |c.white|, 45) <==> c.sign == [45])
  {
    hide SkipWhite, At, AllWhite;
    assert c.digits == [] ==> c.digits + c.tail == c.tail;
    SignedStart(c.white, c.sign, c.digits + c.tail);
  }

  lemma NumberDigits(c: Number)
    requires IsNumber(c)
    ensures var s, j := NumberText(c), |c.white| + |c.sign|;
            j <= |s| && DecimalEnd(s, j) == j + |c.digits| && s[j..j + |c.digits|] == c.digits
  {
    hide NumberText, SkipWhite, At, DecimalEnd, White, AllWhite;
    NumberStarts(c);
    DigitsThen(NumberText(c), |c.white| + |c.sign|, c.digits, c.tail);
  }

  lemma DigitsThen(s: seq<byte>, j: nat, d: seq<byte>, tail: seq<byte>)
    requires j <= |s| && s[j..] == d + tail && AllDigits(d) && (tail != [] ==> !Digit(tail[0]))
    ensures j + |d| <= |s| && DecimalEnd(s, j) == j + |d| && s[j..j + |d|] == d
  {
    hide DecimalEnd, AllDigits, Digit;
    var e := j + |d|;
    assert s[j..][..|d|] == d && s[j..e] == s[j..][..|d|];
    assert e < |s| ==> s[j..][|d|] == tail[0];
    DecimalStop(s, j, e);
  }

  lemma SignLength(c: Number)
    requires IsNumber(c)
    ensures |c.sign| == if c.sign == [43] || c.sign == [45] then 1 else 0
  {
  }

  lemma AtoiReads(c: Number, k: nat)
    requires IsNumber(c) && Spells(c.digits, k, 10)
    ensures AtoiValue(NumberText(c)) == Signed(c.sign, k)
  {
    hide IsNumber, NumberText, SkipWhite, DecimalEnd, At, AllDigits, DecimalValue, Spells;
    NumberStarts(c);
    NumberDigits(c);
    SignLength(c);
    DecimalValueIs(c.digits, k);
  }

  lemma AtoiSplits(s: seq<byte>) returns (c: Number, k: nat)
    ensures IsNumber(c) && NumberText(c) == s && Spells(c.digits, k, 10)
  {
    hide DecimalEnd, SkipWhite, White, AllWhite, AllDigits, Digit, DecimalValue, Spells;
    var i := SkipWhite(s, 0);
    FirstWhite(s);
    var j := if At(s, i, 43) || At(s, i, 45) then i + 1 else i;
    var e := DecimalEnd(s, j);
    c := Number(s[..i], s[i..j], s[j..e], s[e..]);
    k := DecimalValue(c.digits);
    FourParts(s, i, j, e);
    DecimalValueIs(c.digits, k);
  }

  lemma FourParts(s: seq<byte>, i: nat, j: nat, e: nat)
    requires i <= j <= e <= |s|
    ensures s[..i] + (s[i..j] + (s[j..e] + s[e..])) == s
    ensures j == i ==> s[i..j] == []
    ensures j == i + 1 ==> s[i..j] == [s[i]]
    ensures e < |s| ==> s[e..][0] == s[e]
  {
  }

  /** atoi reads every string, and reads the number that is written there. */
  lemma AtoiIs(s: seq<byte>, n: int)
    ensures ReadsAs(s, n) <==> n == AtoiValue(s)
  {
    hide AtoiValue, IsNumber, NumberText, Spells, DecimalValue;
    forall c, k: nat | IsNumber(c) && NumberText(c) == s && Spells(c.digits, k, 10)
      ensures AtoiValue(s) == Signed(c.sign, k)
    {
      AtoiReads(c, k);
    }
    var c, k := AtoiSplits(s);
    AtoiReads(c, k);
  }

  /** The numeral of a number, with any white space, sign and leading zeros before it and no digit after it, reads as that
      number. */
  lemma NumeralReadsAs(white: seq<byte>, sign: seq<byte>, zeros: nat, n: nat, tail: seq<byte>)
    requires AllWhite(white) && (sign == [] || sign == [43] || sign == [45]) && (tail != [] ==> !Digit(tail[0]))
    ensures ReadsAs(white + (sign + (Zeros(zeros) + Numeral(n, 10, false) + tail)), Signed(sign, n))
  {
    hide Numeral, Spells, Digit, AllDigits, DecimalValue, White, AllWhite;
    var d := Zeros(zeros) + Numeral(n, 10, false);
    NumeralSpells(n, 10, false);
    ZerosSpell(zeros, Numeral(n, 10, false), n, 10);
    DecimalValueIs(d, n);
    var c := Number(white, sign, d, tail);
    assert IsNumber(c) && NumberText(c) == white + (sign + (d + tail));
  }

  /** And a string without digits after white space and a sign reads as 0. */
  lemma NoDigitsReadAs(c: Number)
    requires IsNumber(c) && c.digits == []
    ensures ReadsAs(NumberText(c), 0)
  {
    assert Spells(c.digits, 0, 10);
  }

  // ---- How a body is framed

  const TRANSFER_ENCODING := Ascii("Transfer-Encoding")
  const CONTENT_LENGTH := Ascii("Content-Length")
  const CHUNKED := Ascii("chunked")
  const HEAD := Ascii("HEAD")

  /** No body: nothing is forwarded. */
  ghost predicate Untouched(u: seq<byte>, o: Out, ret: int, out: Out, left: seq<byte>) {
    ret == 0 && out == o && left == u
  }

  /** What a body of known length promises, for the stream u of which some bytes are buffered: the code is that of
      conn_copy, which does not notice that the buffered part was not accepted. */
  ghost predicate SizedDone(len: nat, u: seq<byte>, buffered: nat, o: Out, ret: int, out: Out, left: seq<byte>) {
    out == Wrote(o, Take(u, len))
    && ret == (if len <= |u| && (len <= buffered || len <= o.room) then 0 else -1)
    && (ret == 0 ==> left == u[len..])
  }

  /** What a Content-Length promises. */
  ghost predicate LengthDone(n: int, u: seq<byte>, buffered: nat, o: Out, ret: int, out: Out, left: seq<byte>) {
    if !(-0x8000_0000 <= n <= 0x7fff_ffff) then ret == OUTSIDE_C && out == o && left == u
    else if n <= 0 then Untouched(u, o, ret, out, left)
    else SizedDone(n, u, buffered, o, ret, out, left)
  }

  /** What a transfer promises, given the Transfer-Encoding and the Content-Length: chunks if the former is `chunked`,
      whatever the latter is; otherwise as many bytes as the latter says; otherwise nothing. */
  ghost predicate BodyDone(te: Option<seq<byte>>, cl: Option<seq<byte>>, u: seq<byte>, buffered: nat, o: Out,
                           ret: int, out: Out, left: seq<byte>) {
    if te == Some(Ascii("chunked")) then FlowDone(ChunkFlow(u), o, ret, out, left)
    else if cl.None? then Untouched(u, o, ret, out, left)
    else forall n :: ReadsAs(cl.value, n) ==> LengthDone(n, u, buffered, o, ret, out, left)
  }

  /** The branch for a body that is not chunked. */
  method ForwardSized(dst: Conn, src: Conn, length: Option<seq<byte>>) returns (ret: int)
    requires dst.Valid() && src.Valid() && dst != src && dst.buf != src.buf
    modifies dst`sent, dst`room, dst`tx, dst`stat, dst`arriving,
             src`bufS, src`bufE, src`stat, src`arriving, src.buf
    ensures dst.Valid() && src.Valid()
    ensures BodyDone(None, length, old(src.Unread()), old(src.Buffered()), old(dst.Output()),
                     ret, dst.Output(), src.Unread())
  {
    hide Wrote, AtoiValue, ReadsAs, ChunkFlow;
    if length.Some? {
      forall n ensures ReadsAs(length.value, n) <==> n == AtoiValue(length.value) { AtoiIs(length.value, n); }
    }
    var len := 0;
    if length.Some? {
      var n := Atoi(length.value);
      if n.Undefined? { return OUTSIDE_C; }
      len := len + n.len;
    }
    ret := 0;
    if len > 0 {
      ghost var used;
      ret, used := Copy(dst, src, len);
    }
  }

  /** net_transfer_body_HTTP_1_1. What the header table answers, when it is asked, decides how the body is framed. */
  method TransferBody(dst: Conn, src: Conn, data: NetData)
    returns (ret: int, ghost te: Option<seq<byte>>, ghost cl: Option<seq<byte>>)
    requires dst.Valid() && src.Valid() && dst != src && dst.buf != src.buf && data.Valid()
    modifies dst`sent, dst`room, dst`tx, dst`stat, dst`arriving,
             src`bufS, src`bufE, src`stat, src`arriving, src.buf
    ensures dst.Valid() && src.Valid()
    ensures CString(old(data.buf.Contents())) == Ascii("HEAD") ==>
              Untouched(old(src.Unread()), old(dst.Output()), ret, dst.Output(), src.Unread())
    ensures CString(old(data.buf.Contents())) != Ascii("HEAD") ==>
              IsValue(old(data.Fields()), Ascii("Transfer-Encoding"), te)
              && (te != Some(Ascii("chunked")) ==> IsValue(old(data.Fields()), Ascii("Content-Length"), cl))
              && BodyDone(te, cl, old(src.Unread()), old(src.Buffered()), old(dst.Output()), ret, dst.Output(), src.Unread())
  {
    hide FlowDone, LengthDone, Wrote, CString, ChunkFlow, IsValue, ReadsAs;
    te, cl := None, None;
    if CString(data.buf.p[..data.buf.len]) == HEAD { return 0, te, cl; }
    var encoding := data.GetEnt(TRANSFER_ENCODING);
    te := encoding;
    if encoding == None || encoding.value != CHUNKED {
      var length := data.GetEnt(CONTENT_LENGTH);
      cl := length;
      ret := ForwardSized(dst, src, length);
      return;
    }
    ret := ForwardChunks(dst, src);
  }

  /** A well-formed chunked body that the output has room for arrives there byte for byte, and exactly what follows it
      stays unread, however the connections cut their streams up, and whatever Content-Length there is. */
  lemma WholeBody(b: Body, rest: seq<byte>, cl: Option<seq<byte>>, buffered: nat, o: Out, ret: int, out: Out,
                  left: seq<byte>)
    requires WellFormed(b) && |Encode(b)| <= o.room
    requires BodyDone(Some(CHUNKED), cl, Encode(b) + rest, buffered, o, ret, out, left)
    ensures ret == 0 && left == rest
    ensures out == Out(o.sent + Encode(b), o.tx + |Encode(b)|, o.room - |Encode(b)|, o.closed)
  {
    BodyForwarded(b, rest);
  }

  /** One that ends too early fails. */
  lemma ShortBody(b: Body, u: seq<byte>, cl: Option<seq<byte>>, buffered: nat, o: Out, ret: int, out: Out,
                  left: seq<byte>)
    requires WellFormed(b) && u < Encode(b)
    requires BodyDone(Some(CHUNKED), cl, u, buffered, o, ret, out, left)
    ensures ret != 0 && (|ChunkFlow(u).w| <= o.room ==> ret == -1)
  {
    hide ChunkFlow, Encode, Wrote;
    BodyForwarded(b, []);
    assert Encode(b) + [] == Encode(b);
    BodyCutShort(Encode(b), u);
  }
}
