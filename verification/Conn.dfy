/** What reading and copying do to a byte stream, without any buffer (core/conn_io.c). */
module Streams {
  import opened Bytes

  /** The result of reading a line: its text and what follows it; or a failure, with the bytes taken so far. */
  datatype LineResult = Line(text: seq<byte>, rest: seq<byte>) | NoLine(text: seq<byte>, rest: seq<byte>, eof: bool)

  /** conn_gets on the stream u with text already in the caller's buffer. A line ends at LF, CRLF or a CR that
      some other byte follows; a byte 0xFF reads as -1 and is taken for a failure. */
  function GetLine(u: seq<byte>, text: seq<byte>, limit: int): LineResult
    decreases |u|
  {
    if |text| + 1 == limit then NoLine(text, u, false)
    else if u == [] then NoLine(text, [], true)
    else if AsChar(u[0]) == -1 then NoLine(text, u[1..], false)
    else if u[0] == CR then AfterCR(u[1..], text)
    else if u[0] == LF then Line(text, u[1..])
    else GetLine(u[1..], text + [u[0]], limit)
  }

  function AfterCR(u: seq<byte>, text: seq<byte>): LineResult {
    if u == [] then NoLine(text, [], true)
    else if AsChar(u[0]) == -1 then NoLine(text, u[1..], false)
    else if u[0] == LF then Line(text, u[1..])
    else Line(text, u)
  }

  /** The bytes that may occur in a line: no line end and no byte that reads as -1. */
  predicate LineBytes(t: seq<byte>) {
    forall i :: 0 <= i < |t| ==> t[i] != CR && t[i] != LF && t[i] != 255
  }

  lemma {:induction false} GetLineGrows(u: seq<byte>, text: seq<byte>, limit: int)
    ensures var l := GetLine(u, text, limit);
            text <= l.text && |l.rest| + |l.text| <= |u| + |text| && (l.Line? ==> |l.rest| + |l.text| < |u| + |text|)
    decreases |u|
  {
    if |text| + 1 != limit && u != [] && AsChar(u[0]) != -1 && u[0] != CR && u[0] != LF {
      GetLineGrows(u[1..], text + [u[0]], limit);
    }
  }

  /** A line ended by CRLF is read whole when it stays below the limit. */
  lemma {:induction false} GetLineCRLF(t: seq<byte>, rest: seq<byte>, text: seq<byte>, limit: int)
    requires LineBytes(t) && |text| + |t| + 1 < limit
    ensures GetLine(t + CRLF + rest, text, limit) == Line(text + t, rest)
  {
    var u := t + CRLF + rest;
    if t == [] {
      assert u[0] == CR && u[1] == LF && u[1..][1..] == rest && text + t == text;
    } else {
      assert u[0] == t[0] && u[1..] == t[1..] + CRLF + rest;
      GetLineCRLF(t[1..], rest, text + [t[0]], limit);
      assert text + [t[0]] + t[1..] == text + t;
    }
  }

  /** The two other line ends: LF, and a CR that a byte other than LF and 0xFF follows. */
  lemma {:induction false} GetLineLoneEnd(t: seq<byte>, rest: seq<byte>, text: seq<byte>, limit: int)
    requires LineBytes(t) && |text| + |t| + 1 < limit
    ensures GetLine(t + [LF] + rest, text, limit) == Line(text + t, rest)
    ensures rest != [] && rest[0] != LF && rest[0] != 255 ==>
              GetLine(t + [CR] + rest, text, limit) == Line(text + t, rest)
  {
    var u, v := t + [LF] + rest, t + [CR] + rest;
    if t == [] {
      assert u[0] == LF && u[1..] == rest && v[0] == CR && v[1..] == rest && text + t == text;
    } else {
      assert u[0] == t[0] && u[1..] == t[1..] + [LF] + rest && v[0] == t[0] && v[1..] == t[1..] + [CR] + rest;
      GetLineLoneEnd(t[1..], rest, text + [t[0]], limit);
      assert text + [t[0]] + t[1..] == text + t;
    }
  }

  /** A line that was read is free of line ends, and one of the three line ends follows it. */
  lemma {:induction false} GetLineInverse(u: seq<byte>, text: seq<byte>, limit: int)
    requires GetLine(u, text, limit).Line?
    ensures var l := GetLine(u, text, limit);
            text <= l.text && LineBytes(l.text[|text|..]) && EndsLine(u, l.text[|text|..], l.rest)
    decreases |u|
  {
    var l := GetLine(u, text, limit);
    if u[0] == CR || u[0] == LF {
      assert l.text[|text|..] == [];
      assert u == [] + [u[0]] + u[1..];
      assert u[0] == CR && u[1] == LF ==> u == [] + CRLF + u[1..][1..];
    } else {
      GetLineInverse(u[1..], text + [u[0]], limit);
      var t := l.text[|text| + 1..];
      assert l.text[|text|..] == [u[0]] + t && u == [u[0]] + u[1..];
      EndsLineAfter(u[1..], u[0], t, l.rest);
    }
  }

  /** u is the text t, a line end and the rest. */
  predicate EndsLine(u: seq<byte>, t: seq<byte>, rest: seq<byte>) {
    u == t + [LF] + rest || u == t + CRLF + rest || (u == t + [CR] + rest && rest != [] && rest[0] != LF && rest[0] != 255)
  }

  lemma EndsLineAfter(u: seq<byte>, b: byte, t: seq<byte>, rest: seq<byte>)
    requires EndsLine(u, t, rest)
    ensures EndsLine([b] + u, [b] + t, rest)
  {
    assert [b] + (t + [LF] + rest) == [b] + t + [LF] + rest;
    assert [b] + (t + CRLF + rest) == [b] + t + CRLF + rest;
    assert [b] + (t + [CR] + rest) == [b] + t + [CR] + rest;
  }

  /** The text never reaches the limit, although the test is for equality only. */
  lemma {:induction false} GetLineBound(u: seq<byte>, text: seq<byte>, limit: int)
    requires |text| < limit
    ensures var l := GetLine(u, text, limit);
            |l.text| < limit && (l.Line? ==> |l.text| + 1 < limit)
    decreases |u|
  {
    if |text| + 1 != limit && u != [] && AsChar(u[0]) != -1 && u[0] != CR && u[0] != LF {
      GetLineBound(u[1..], text + [u[0]], limit);
    }
  }

  /** A line is read if and only if one is there within the limit: text without a line end, and a line end. */
  lemma GetLineIff(u: seq<byte>, text: seq<byte>, limit: int)
    requires |text| < limit
    ensures GetLine(u, text, limit).Line? <==>
              exists t, rest :: LineBytes(t) && |text| + |t| + 1 < limit && EndsLine(u, t, rest)
  {
    if GetLine(u, text, limit).Line? {
      GetLineInverse(u, text, limit);
      GetLineBound(u, text, limit);
      var l := GetLine(u, text, limit);
      assert EndsLine(u, l.text[|text|..], l.rest);
    }
    forall t, rest | LineBytes(t) && |text| + |t| + 1 < limit && EndsLine(u, t, rest)
      ensures GetLine(u, text, limit).Line?
    {
      GetLineCRLF(t, rest, text, limit);
      GetLineLoneEnd(t, rest, text, limit);
    }
  }

  /** Only the end of the stream leaves a line open: whatever else the outcome is, it does not depend on what follows. */
  lemma {:induction false} GetLineMore(u: seq<byte>, more: seq<byte>, text: seq<byte>, limit: int)
    ensures var l := GetLine(u, text, limit);
            if l.NoLine? && l.eof then l.rest == [] else GetLine(u + more, text, limit) == l.(rest := l.rest + more)
    decreases |u|
  {
    if |text| + 1 != limit && u != [] {
      assert (u + more)[0] == u[0] && (u + more)[1..] == u[1..] + more;
      if u[0] == CR {
        AfterMore(u[1..], more, text);
      } else if AsChar(u[0]) != -1 && u[0] != LF {
        GetLineMore(u[1..], more, text + [u[0]], limit);
      }
    }
  }

  lemma AfterMore(u: seq<byte>, more: seq<byte>, text: seq<byte>)
    ensures var l := AfterCR(u, text);
            if l.NoLine? && l.eof then l.rest == [] else AfterCR(u + more, text) == l.(rest := l.rest + more)
  {
    if u != [] { assert (u + more)[0] == u[0] && (u + more)[1..] == u[1..] + more; }
  }

  /** A stream that ends before the line does, with or without a CR as its last byte. */
  lemma {:induction false} GetLineOpen(t: seq<byte>, text: seq<byte>, limit: int)
    requires LineBytes(t) && |text| + |t| + 1 < limit
    ensures GetLine(t, text, limit) == NoLine(text + t, [], true)
    ensures GetLine(t + [CR], text, limit) == NoLine(text + t, [], true)
    decreases |t|
  {
    if t == [] {
      assert text + t == text && (t + [CR])[1..] == [];
    } else {
      assert (t + [CR])[0] == t[0] && (t + [CR])[1..] == t[1..] + [CR];
      GetLineOpen(t[1..], text + [t[0]], limit);
      assert text + [t[0]] + t[1..] == text + t;
    }
  }
}

/** Connections and their buffered input (core/conn.h, core/conn_io.c). */
module Conns {
  import opened Bytes
  import opened Streams
  import opened StrBufs

  const IOBUF_SIZE: nat := 16 * 1024

  datatype Stat = Used | Free | Closed

  /** The writing side of a connection: what was accepted, the bytes counted, how many more will be accepted. */
  datatype Out = Out(sent: seq<byte>, tx: nat, room: nat, closed: bool)

  /** Writing data: all of it, or what there is room for before the connection closes. */
  function Wrote(o: Out, data: seq<byte>): Out {
    if |data| <= o.room then Out(o.sent + data, o.tx + |data|, o.room - |data|, o.closed)
    else Out(o.sent + data[..o.room], o.tx + o.room, 0, true)
  }

  /** Writing in two pieces is writing once. */
  lemma WroteTwice(o: Out, a: seq<byte>, b: seq<byte>)
    ensures Wrote(Wrote(o, a), b) == Wrote(o, a + b)
    ensures Wrote(o, []) == o
  {
    if |a| > o.room {
      assert (a + b)[..o.room] == a[..o.room];
      assert o.sent + a[..o.room] + b[..0] == o.sent + a[..o.room];
    } else if |a + b| <= o.room {
      assert o.sent + a + b == o.sent + (a + b);
    } else {
      assert o.sent + a + b[..o.room - |a|] == o.sent + (a + b)[..o.room];
    }
    assert o.sent + [] == o.sent;
  }

  lemma WroteRoom(o: Out, data: seq<byte>)
    ensures Wrote(o, data).room == Max(0, o.room - |data|) && Wrote(o, data).closed == (o.closed || |data| > o.room)
  {
  }

  /** A connection without room only closes. */
  lemma WroteFull(o: Out, a: seq<byte>, data: seq<byte>)
    requires a <= data && |a| == o.room
    ensures Wrote(o, data) == Wrote(o, a).(closed := o.closed || |a| < |data|)
  {
    assert data[..|a|] == a;
  }

  /** What no longer fits does not matter. */
  lemma WroteShort(o: Out, a: seq<byte>, data: seq<byte>)
    requires a <= data
    ensures |a| > o.room ==> Wrote(o, a) == Wrote(o, data)
  {
    if |a| > o.room {
      assert a[..o.room] == data[..o.room];
    }
  }

  /** Taking k bytes out of a buffer that something follows. */
  lemma TakeOut(b: seq<byte>, lo: nat, k: nat, hi: nat, a: seq<byte>)
    requires lo + k <= hi <= |b|
    ensures (b[lo..hi] + a)[..k] == b[lo..lo + k] && (b[lo..hi] + a)[k..] == b[lo + k..hi] + a
  {
  }

  /** Taking the first byte of what was just received. */
  lemma FirstOf(b: seq<byte>, n: nat, u: seq<byte>)
    requires 1 <= n <= |u| && n <= |b| && b[..n] == u[..n]
    ensures b[0] == u[0] && b[1..n] + u[n..] == u[1..]
  {
    assert b[0] == b[..n][0];
    assert b[1..n] == b[..n][1..];
  }

  /** memcpy to the start of dst. */
  method CopyBytes(dst: array<byte>, src: array<byte>, off: nat, n: nat)
    requires dst != src && off + n <= src.Length && n <= dst.Length
    modifies dst
    ensures dst[..n] == src[off..off + n]
  {
    forall i | 0 <= i < n { dst[i] := src[off + i]; }
  }

  class Conn {
    var buf: array<byte>
    var bufS: nat
    var bufE: nat
    var tx: nat
    var stat: Stat

    // The socket: what it will still deliver before it ends or fails, what it has accepted, and how many
    // bytes it will still accept before it fails.
    var arriving: seq<byte>
    var sent: seq<byte>
    var room: nat

    ghost predicate Valid()
      reads this
    {
      bufS <= bufE <= buf.Length == IOBUF_SIZE
    }

    /** The input not yet consumed, wherever it is. */
    ghost function Unread(): seq<byte>
      reads this, buf
      requires Valid()
    {
      buf[bufS..bufE] + arriving
    }

    ghost function Buffered(): nat
      reads this
      requires Valid()
    {
      bufE - bufS
    }

    ghost function Output(): Out
      reads this
    {
      Out(sent, tx, if stat == Closed then 0 else room, stat == Closed)
    }

    /** conn_init */
    constructor (arriving: seq<byte>, room: nat)
      ensures Valid() && Unread() == arriving && Buffered() == 0 && stat == Free && Output() == Out([], 0, room, false) && fresh(buf)
    {
      buf := new byte[IOBUF_SIZE](_ => 0);
      bufS, bufE, tx, stat := 0, 0, 0, Free;
      this.arriving, this.sent, this.room := arriving, [], room;
    }

    /** conn_close: nothing more arrives. */
    method Close()
      requires Valid()
      modifies this`stat, this`arriving
      ensures stat == Closed && arriving == if old(stat) == Closed then old(arriving) else []
    {
      if stat == Closed { return; }
      arriving := [];
      stat := Closed;
    }

    /** conn_try_io for reading: any non-empty part of what arrives, as far as it fits; -1 at the end. */
    method TryRecv(dst: array<byte>, off: nat, len: nat) returns (n: int)
      requires Valid() && 0 < len && off + len <= dst.Length
      modifies this`arriving, dst
      ensures old(arriving) == [] ==> n == -1 && arriving == [] && dst[..] == old(dst[..])
      ensures old(arriving) != [] ==> 1 <= n <= len && n <= |old(arriving)| && arriving == old(arriving)[n..]
      ensures old(arriving) != [] ==> dst[off..off + n] == old(arriving)[..n]
      ensures old(arriving) != [] ==> dst[..off] == old(dst[..off]) && dst[off + n..] == old(dst[off + n..])
    {
      if arriving == [] { return -1; }
      n :| 1 <= n <= len && n <= |arriving|;
      forall i | 0 <= i < n { dst[off + i] := arriving[i]; }
      arriving := arriving[n..];
    }

    /** conn_try_io for writing: any non-empty part of the data that the socket still accepts. */
    method TrySend(src: array<byte>, off: nat, len: nat) returns (n: int)
      requires 0 < len && off + len <= src.Length
      modifies this`sent, this`room
      ensures old(room) == 0 ==> n == -1 && sent == old(sent) && room == 0
      ensures old(room) > 0 ==> 1 <= n <= len && room == old(room) - n && sent == old(sent) + src[off..off + n]
    {
      if room == 0 { return -1; }
      n :| 1 <= n <= len && n <= room;
      sent := sent + src[off..off + n];
      room := room - n;
    }

    /** The first half of conn_read: copy what the buffer holds. */
    method TakeBuffered(dst: array<byte>, len: nat) returns (k: nat)
      requires Valid() && len <= dst.Length && dst != buf
      modifies this`bufS, dst
      ensures Valid() && k == Min(len, old(Buffered()))
      ensures dst[..k] == old(Unread())[..k] && Unread() == old(Unread())[k..] && (k < len ==> bufS == bufE)
    {
      k := 0;
      TakeOut(buf[..], bufS, 0, bufE, arriving);
      if bufS < bufE {
        var copyLen := if bufE - bufS > len then len else bufE - bufS;
        TakeOut(buf[..], bufS, copyLen, bufE, arriving);
        CopyBytes(dst, buf, bufS, copyLen);
        k := copyLen;
        bufS := bufS + copyLen;
      }
    }

    /** The loop of conn_read, with nothing left in the buffer. */
    method RecvAll(dst: array<byte>, k0: nat, len: nat) returns (ok: bool)
      requires Valid() && k0 <= len <= dst.Length
      modifies this`arriving, dst
      ensures dst[..k0] == old(dst[..k0]) && ok == (len - k0 <= |old(arriving)|)
      ensures ok ==> dst[k0..len] == old(arriving)[..len - k0] && arriving == old(arriving)[len - k0..]
      ensures !ok ==> arriving == []
    {
      ghost var a := arriving;
      var k := k0;
      while k < len
        invariant k0 <= k <= len && k - k0 <= |a| && arriving == a[k - k0..]
        invariant dst[..k0] == old(dst[..k0]) && dst[k0..k] == a[..k - k0]
      {
        var n := TryRecv(dst, k, len - k);
        if n == -1 || n == 0 { return false; }
        ghost var d := k - k0;
        assert dst[k0..k] == dst[..k][k0..] && dst[..k0] == dst[..k][..k0];
        TwoSteps(a, d, n);
        assert dst[k0..k + n] == dst[k0..k] + dst[k..k + n];
        k := k + n;
      }
      return true;
    }

    /** conn_read: exactly len bytes, or failure when fewer are left or the connection is closed. */
    method Read(dst: array<byte>, len: nat) returns (ret: int)
      requires Valid() && len <= dst.Length && dst != buf
      modifies this`bufS, this`stat, this`arriving, dst
      ensures Valid()
      ensures old(stat) == Closed ==> ret == -1 && stat == Closed && Unread() == old(Unread())
      ensures old(stat) != Closed && len <= |old(Unread())| ==>
                ret == 0 && stat == old(stat) && dst[..len] == old(Unread())[..len] && Unread() == old(Unread())[len..]
      ensures old(stat) != Closed && len > |old(Unread())| ==> ret == -1 && stat == Closed && Unread() == []
    {
      if stat == Closed { Close(); return -1; }
      ghost var u := Unread();
      var k := TakeBuffered(dst, len);
      ghost var v := Unread();
      assert k < len ==> v == arriving;
      var ok := RecvAll(dst, k, len);
      if !ok { Close(); return -1; }
      assert dst[..len] == dst[..k] + dst[k..len];
      assert k < len ==> u[..len] == u[..k] + u[k..][..len - k] && u[len..] == u[k..][len - k..];
      return 0;
    }

    /** conn_getc: the next byte, read as a signed char. */
    method GetC() returns (ch: int)
      requires Valid()
      modifies this`bufS, this`bufE, this`stat, this`arriving, buf
      ensures Valid()
      ensures old(Unread()) == [] ==> ch == -1 && stat == Closed && Unread() == []
      ensures old(Unread()) != [] ==> ch == AsChar(old(Unread())[0]) && stat == old(stat)
      ensures old(Unread()) != [] ==> Unread() == old(Unread())[1..] && bufS > 0 && buf[bufS - 1] == old(Unread())[0]
    {
      ghost var u := Unread();
      if bufS < bufE {
        TakeOut(buf[..], bufS, 1, bufE, arriving);
        bufS := bufS + 1;
        return AsChar(buf[bufS - 1]);
      }
      assert arriving == u;
      bufS, bufE := 0, 0;
      var n := TryRecv(buf, 0, buf.Length);
      if n == -1 { Close(); return -1; }
      assert buf[..n] == u[..n];
      FirstOf(buf[..], n, u);
      bufE := n;
      bufS := 1;
      return AsChar(buf[0]);
    }

    /** conn_ungetc: the byte just read is unread again. */
    method UngetC()
      requires Valid()
      modifies this`bufS
      ensures Valid()
      ensures old(bufS) > 0 ==> Unread() == [buf[old(bufS) - 1]] + old(Unread())
      ensures old(bufS) == 0 ==> Unread() == old(Unread())
    {
      if bufS > 0 {
        bufS := bufS - 1;
        assert buf[bufS..bufE] == [buf[bufS]] + buf[bufS + 1..bufE];
      }
    }

    /** The loop of conn_gets: up to a line end, or -1. */
    method GetText(limit: int, sb: StrBuf) returns (ch: int, ret: nat)
      requires Valid() && sb.Valid() && sb.p != buf
      modifies this`bufS, this`bufE, this`stat, this`arriving, buf, sb, sb.p
      ensures Valid() && sb.Valid() && (sb.p == old(sb.p) || fresh(sb.p))
      ensures ret == |sb.Contents()| - |old(sb.Contents())| && (ret > 0 ==> sb.Terminated())
      ensures ch == -1 || ch == CR || ch == LF
      ensures var goal := GetLine(old(Unread()), old(sb.Contents()), limit);
              if ch == CR then goal == AfterCR(Unread(), sb.Contents())
              else if ch == LF then goal == Line(sb.Contents(), Unread())
              else goal == NoLine(sb.Contents(), Unread(), goal.NoLine? && goal.eof)
      ensures var goal := GetLine(old(Unread()), old(sb.Contents()), limit);
              stat == if ch == -1 && goal.NoLine? && goal.eof then Closed else old(stat)
    {
      ghost var goal := GetLine(Unread(), sb.Contents(), limit);
      ghost var text0 := sb.Contents();
      ret := 0;
      while true
        invariant Valid() && sb.Valid() && sb.p != buf && (sb.p == old(sb.p) || fresh(sb.p))
        invariant GetLine(Unread(), sb.Contents(), limit) == goal
        invariant ret == |sb.Contents()| - |text0| && stat == old(stat) && (ret > 0 ==> sb.Terminated())
        decreases |Unread()|
      {
        if sb.len + 1 == limit { return -1, ret; }
        ch := GetC();
        if ch == -1 || ch == CR || ch == LF { return ch, ret; }
        sb.Append(FromChar(ch));
        ret := ret + 1;
      }
    }

    /** conn_gets: the line the unbuffered reader gets, appended to the caller's buffer. */
    method Gets(limit: int, sb: StrBuf) returns (ret: int)
      requires Valid() && sb.Valid() && sb.p != buf
      modifies this`bufS, this`bufE, this`stat, this`arriving, buf, sb, sb.p
      ensures Valid() && sb.Valid() && (sb.p == old(sb.p) || fresh(sb.p))
      ensures var l := GetLine(old(Unread()), old(sb.Contents()), limit);
              Unread() == l.rest && sb.Contents() == l.text
              && ret == (if l.Line? then |l.text| - |old(sb.Contents())| else -1)
              && stat == (if l.NoLine? && l.eof then Closed else old(stat))
      ensures ret > 0 ==> sb.Terminated()
    {
      hide GetLine;
      var ch;
      ch, ret := GetText(limit, sb);
      if ch == -1 { return -1; }
      if ch != CR { return; }
      var ended := SkipLF();
      if !ended { return -1; }
    }

    /** The end of conn_gets after a CR: an LF that follows is consumed, anything else is put back. */
    method SkipLF() returns (ended: bool)
      requires Valid()
      modifies this`bufS, this`bufE, this`stat, this`arriving, buf
      ensures Valid()
      ensures var l := AfterCR(old(Unread()), []);
              Unread() == l.rest && ended == l.Line? && stat == (if l.NoLine? && l.eof then Closed else old(stat))
              && forall text :: AfterCR(old(Unread()), text) == if l.Line? then Line(text, l.rest) else NoLine(text, l.rest, l.eof)
    {
      ghost var v := Unread();
      var ch := GetC();
      if ch == -1 { return false; }
      if ch != LF {
        UngetC();
        assert Unread() == v;
      }
      return true;
    }

    /** One round of the loop of conn_write. */
    method SendSome(src: array<byte>, off: nat, len: nat) returns (n: int)
      requires Valid() && 0 < len && off + len <= src.Length && stat != Closed
      modifies this`sent, this`room, this`tx
      ensures Valid()
      ensures n == -1 ==> room == 0 && Output() == old(Output())
      ensures n != -1 ==> 1 <= n <= len && n <= old(room) && Output() == Wrote(old(Output()), src[off..off + n])
    {
      n := TrySend(src, off, len);
      if n != -1 {
        tx := tx + n;
      }
    }

    /** conn_write: all of the data, or as much as the socket accepts and failure. */
    method Write(src: array<byte>, off: nat, len: nat) returns (ret: int)
      requires Valid() && off + len <= src.Length
      modifies this`sent, this`room, this`tx, this`stat, this`arriving
      ensures Valid() && Output() == Wrote(old(Output()), src[off..off + len])
      ensures ret == if old(stat) != Closed && len <= old(room) then 0 else -1
      ensures ret == 0 ==> stat == old(stat) && arriving == old(arriving)
    {
      hide Wrote;
      ghost var o, data := Output(), src[off..off + len];
      WroteTwice(o, [], []);
      if stat == Closed {
        Close();
        WroteFull(o, [], data);
        return -1;
      }
      var k := 0;
      while k < len
        invariant k <= len && k <= o.room
        invariant stat == old(stat) && arriving == old(arriving)
        invariant Output() == Wrote(o, data[..k])
      {
        WroteRoom(o, data[..k]);
        var n := SendSome(src, off + k, len - k);
        if n == -1 {
          WroteFull(o, data[..k], data);
          Close();
          return -1;
        }
        Window(src[..], off, len, k, n);
        TwoSteps(data, k, n);
        WroteTwice(o, data[..k], data[k..][..n]);
        k := k + n;
      }
      assert data[..len] == data;
      return 0;
    }
  }

  /** The first half of conn_copy: what the input buffer holds goes out, and is consumed even when it does not. */
  method CopyBuffered(output: Conn, input: Conn, len: nat) returns (k: nat)
    requires output.Valid() && input.Valid() && output != input && output.buf != input.buf
    modifies output`sent, output`room, output`tx, output`stat, output`arriving, input`bufS
    ensures output.Valid() && input.Valid()
    ensures k == Min(len, old(input.Buffered())) && input.Unread() == old(input.Unread())[k..]
    ensures k < len ==> input.bufS == input.bufE
    ensures output.Output() == Wrote(old(output.Output()), old(input.Unread())[..k])
  {
    hide Wrote;
    k := 0;
    WroteTwice(output.Output(), [], []);
    if input.bufS < input.bufE {
      var bufLen := input.bufE - input.bufS;
      k := if bufLen > len then len else bufLen;
      TakeOut(input.buf[..], input.bufS, k, input.bufE, input.arriving);
      var _ := output.Write(input.buf, input.bufS, k);
      input.bufS := input.bufS + k;
    }
  }

  /** One round of the loop of conn_copy: whatever arrives is buffered, and as much of it as is wanted goes out. */
  method CopyArriving(output: Conn, input: Conn, want: nat) returns (n: nat, ok: bool)
    requires output.Valid() && input.Valid() && output != input && output.buf != input.buf
    requires 0 < want && input.bufS == input.bufE
    modifies output`sent, output`room, output`tx, output`stat, output`arriving,
             input`bufS, input`bufE, input`stat, input`arriving, input.buf
    ensures output.Valid() && input.Valid()
    ensures old(input.Unread()) == [] ==> n == 0 && !ok && input.Unread() == [] && input.stat == Closed
    ensures old(input.Unread()) != [] ==>
              1 <= n <= Min(want, |old(input.Unread())|) && input.stat == old(input.stat) && ok == (n <= old(output.Output()).room)
    ensures ok ==> input.Unread() == old(input.Unread())[n..] && (n < want ==> input.bufS == input.bufE)
    ensures old(input.Unread()) != [] && !ok ==> input.Unread() == old(input.Unread())
    ensures n <= |old(input.Unread())| && output.Output() == Wrote(old(output.Output()), old(input.Unread())[..n])
  {
    hide Wrote;
    ghost var u := input.Unread();
    assert input.arriving == u;
    input.bufS, input.bufE := 0, 0;
    var rlen := input.TryRecv(input.buf, 0, input.buf.Length);
    WroteTwice(output.Output(), [], []);
    if rlen == -1 || rlen == 0 {
      input.Close();
      assert input.Unread() == [] && u[..0] == [];
      return 0, false;
    }
    input.bufE := rlen;
    assert input.Unread() == u;
    n := if want > rlen then rlen else want;
    TakeOut(input.buf[..], 0, n, input.bufE, input.arriving);
    var ret := output.Write(input.buf, 0, n);
    if ret == -1 { return n, false; }
    input.bufS := input.bufS + n;
    return n, true;
  }

  lemma WroteOn(o: Out, u: seq<byte>, k: nat, n: nat)
    requires k + n <= |u|
    ensures Wrote(Wrote(o, u[..k]), u[k..][..n]) == Wrote(o, u[..k + n]) && u[k..][n..] == u[k + n..]
  {
    TwoSteps(u, k, n);
    WroteTwice(o, u[..k], u[k..][..n]);
  }

  /** When the input ends or the output is full, all that could go out did. */
  lemma StoppedShort(o: Out, u: seq<byte>, k: nat, n: nat, len: nat, b: nat)
    requires k + n <= |u| && k + n <= len && b <= k < len && (o.room < k ==> k == b)
    requires k == |u| || n > Max(0, o.room - k)
    ensures Wrote(Wrote(o, u[..k]), u[k..][..n]) == Wrote(o, Take(u, len))
    ensures !(len <= |u| && (len <= b || len <= o.room))
    ensures k < |u| ==> |u| > o.room && Wrote(o, Take(u, len)).closed
    ensures k <= Max(b, o.room)
  {
    WroteOn(o, u, k, n);
    if k == |u| { assert u[..k] == Take(u, len); }
    WroteShort(o, u[..k + n], Take(u, len));
  }

  /** What the loop of conn_copy keeps: k bytes of u were handed to the output, b of them from the buffer. */
  ghost predicate Copying(o: Out, u: seq<byte>, b: nat, k: nat, len: nat, out: Out) {
    b <= k <= len && k <= |u| && out == Wrote(o, u[..k]) && (o.room < k ==> k == b)
  }

  /** The loop of conn_copy, after b bytes of u went out from the buffer. The ghost result is what was consumed. */
  method CopyRest(output: Conn, input: Conn, len: nat, b: nat, ghost o: Out, ghost u: seq<byte>)
    returns (ok: bool, ghost used: nat)
    requires output.Valid() && input.Valid() && output != input && output.buf != input.buf
    requires b <= |u| && input.Unread() == u[b..] && (b < len ==> input.bufS == input.bufE)
    requires Copying(o, u, b, b, len, output.Output())
    modifies output`sent, output`room, output`tx, output`stat, output`arriving,
             input`bufS, input`bufE, input`stat, input`arriving, input.buf
    ensures output.Valid() && input.Valid()
    ensures b <= used <= |u| && used <= Max(b, o.room) && input.Unread() == u[used..]
    ensures ok ==> used == len && Copying(o, u, b, len, len, output.Output()) && input.stat == old(input.stat)
    ensures !ok ==> output.Output() == Wrote(o, Take(u, len)) && !(len <= |u| && (len <= b || len <= o.room))
    ensures !ok ==> if used == |u| then input.stat == Closed else |u| > o.room && output.Output().closed
  {
    hide Wrote, Copying;
    var k := b;
    CopyRoom(o, u, b, k, len, output.Output());
    while k < len
      invariant output.Valid() && input.Valid() && b <= k <= len && k <= |u| && input.Unread() == u[k..]
      invariant k < len ==> input.bufS == input.bufE
      invariant Copying(o, u, b, k, len, output.Output())
      invariant input.stat == old(input.stat)
    {
      CopyRoom(o, u, b, k, len, output.Output());
      var n, more := CopyArriving(output, input, len - k);
      if !more {
        StoppedShort(o, u, k, n, len, b);
        return false, k;
      }
      CopyGoesOn(o, u, b, k, n, len);
      k := k + n;
    }
    CopyRoom(o, u, b, k, len, output.Output());
    return true, len;
  }

  /** conn_copy. The ghost result is the number of bytes of the input that are consumed. */
  method Copy(output: Conn, input: Conn, len: nat) returns (ret: int, ghost used: nat)
    requires output.Valid() && input.Valid() && output != input && output.buf != input.buf
    modifies output`sent, output`room, output`tx, output`stat, output`arriving,
             input`bufS, input`bufE, input`stat, input`arriving, input.buf
    ensures output.Valid() && input.Valid()
    // What goes out are the first unread bytes, each counted; the output closes when it cannot take them.
    ensures output.Output() == Wrote(old(output.Output()), Take(old(input.Unread()), len))
    // Success: the input had enough, and what had to go out after the buffered part did.
    ensures ret == 0 || ret == -1
    ensures ret == 0 <==> len <= |old(input.Unread())|
                          && (len <= old(input.Buffered()) || len <= old(output.Output()).room)
    // Copy conservation: on success with the output still open, it grew by exactly the first len bytes.
    ensures ret == 0 && output.stat != Closed ==>
              output.sent == old(output.sent) + old(input.Unread())[..len] && output.tx == old(output.tx) + len
    // What is left of the input. When the output fails, that is the buffered part at least, and otherwise no more
    // than the output took.
    ensures used <= |old(input.Unread())| && input.Unread() == old(input.Unread())[used..]
    ensures ret == 0 ==> used == len && input.stat == old(input.stat)
    ensures Min(len, old(input.Buffered())) <= used <= Max(Min(len, old(input.Buffered())), old(output.Output()).room)
    // Failure of the input alone: everything was forwarded.
    ensures ret == -1 && |old(input.Unread())| <= old(output.Output()).room ==> input.stat == Closed && input.Unread() == []
    ensures ret == -1 ==> input.stat == Closed || output.stat == Closed
  {
    hide Wrote, Copying;
    ghost var u, o := input.Unread(), output.Output();
    var k := CopyBuffered(output, input, len);
    CopyStarts(o, u, k, len);
    var ok;
    ok, used := CopyRest(output, input, len, k, o, u);
    if !ok { return -1, used; }
    CopyEnds(o, u, k, len, output.Output());
    return 0, used;
  }

  lemma CopyStarts(o: Out, u: seq<byte>, b: nat, len: nat)
    requires b <= len && b <= |u|
    ensures Copying(o, u, b, b, len, Wrote(o, u[..b]))
  {
  }

  lemma CopyRoom(o: Out, u: seq<byte>, b: nat, k: nat, len: nat, out: Out)
    requires Copying(o, u, b, k, len, out)
    ensures k <= |u| && b <= k <= len && out == Wrote(o, u[..k]) && out.room == Max(0, o.room - k) && (o.room < k ==> k == b)
  {
    WroteRoom(o, u[..k]);
  }

  lemma CopyGoesOn(o: Out, u: seq<byte>, b: nat, k: nat, n: nat, len: nat)
    requires 0 < n && k + n <= |u| && k + n <= len && n <= o.room - k && Copying(o, u, b, k, len, Wrote(o, u[..k]))
    ensures Copying(o, u, b, k + n, len, Wrote(Wrote(o, u[..k]), u[k..][..n])) && u[k..][n..] == u[k + n..]
  {
    WroteOn(o, u, k, n);
  }

  lemma CopyEnds(o: Out, u: seq<byte>, b: nat, len: nat, out: Out)
    requires Copying(o, u, b, len, len, out)
    ensures len <= |u| && out == Wrote(o, Take(u, len)) && (len <= b || len <= o.room)
    ensures !out.closed ==> out.sent == o.sent + u[..len] && out.tx == o.tx + len
  {
    assert u[..len] == Take(u, len);
  }
}
