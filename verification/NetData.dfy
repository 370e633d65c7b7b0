/** The header buffer and table of a request or response (core/net_data.h, core/net_data.c, core/net_handle.c). */
module NetDatas {
  import opened Bytes
  import opened Streams
  import opened StrBufs
  import opened Conns
  import opened Headers

  datatype Option<T> = None | Some(value: T)

  /** The value of a field with the key, if there is one. */
  ghost predicate IsValue(fs: seq<Field>, key: seq<byte>, val: Option<seq<byte>>) {
    match val
    case None => forall k :: 0 <= k < |fs| ==> fs[k].key != key
    case Some(v) => Field(key, v) in fs
  }

  /** The header buffer and table after a line was parsed, and how that went. */
  datatype Parsed = Parsed(text: seq<byte>, ents: seq<Ent>, status: Status)

  /** Parsing the line from p0 on: the key is cut off by a NUL in place, and an entry refers to the value. */
  function ParseAt(text: seq<byte>, p0: nat, ents: seq<Ent>): Parsed
    requires p0 < |text|
  {
    var s := CString(text[p0..]);
    var m := ParseLine(s);
    if m.NoMatch? then Parsed(text, ents, Failed)
    else if m.ke - m.ks >= HTTP_HEADER_KEY_MAXLEN then Parsed(text, ents, KeyTooLong)
    else Parsed(text[p0 + m.ke := NUL], ents + [Ent(s[m.ks..m.ke], p0 + m.vs)], Fetched)
  }

  class NetData {
    var buf: StrBuf
    // The table, in the order that its hash table iterates in.
    var table: seq<Ent>

    ghost predicate Valid()
      reads this, buf, buf.p
    {
      buf.Valid() && Settled(buf.Contents(), table)
    }

    ghost function Fields(): (fs: seq<Field>)
      reads this, buf, buf.p
      requires Valid()
    {
      Headers.Fields(buf.Contents(), table)
    }

    /** net_data_init */
    constructor ()
      ensures Valid() && table == [] && buf.Contents() == [] && fresh(buf) && fresh(buf.p)
    {
      buf := new StrBuf();
      table := [];
    }

    /** net_parse_header on the line that ends the buffer. */
    method ParseHeader(p0: nat) returns (status: Status)
      requires buf.Valid() && p0 < buf.len && buf.p[buf.len - 1] == NUL
      modifies this`table, buf.p
      ensures buf.Valid()
      ensures Parsed(buf.Contents(), table, status) == ParseAt(old(buf.Contents()), p0, old(table))
    {
      hide ParseLine, CString;
      ghost var text := buf.Contents();
      NulInside(text[p0..]);
      var s := CString(buf.p[p0..buf.len]);
      assert buf.p[p0..buf.len] == text[p0..];
      var m := ParseLine(s);
      if m.NoMatch? { return Failed; }
      if m.ke - m.ks >= HTTP_HEADER_KEY_MAXLEN { return KeyTooLong; }
      buf.p[p0 + m.ke] := NUL;
      buf.p[p0 + |s|] := NUL;
      assert buf.Contents() == text[p0 + m.ke := NUL];
      KeyCut(text, p0, s, m.ks, m.ke);
      assert buf.p[p0 + m.ks..buf.len] == buf.Contents()[p0 + m.ks..];
      var key := CString(buf.p[p0 + m.ks..buf.len]);
      table := table + [Ent(key, p0 + m.vs)];
      return Fetched;
    }

    /** conn_gets for a header line, with a NUL after it unless it is empty. */
    method GetHeaderLine(conn: Conn) returns (ret: int)
      requires Valid() && conn.Valid() && buf.p != conn.buf
      modifies buf, buf.p, conn`bufS, conn`bufE, conn`stat, conn`arriving, conn.buf
      ensures Valid() && conn.Valid() && (buf.p == old(buf.p) || fresh(buf.p))
      ensures var text := old(buf.Contents());
              var l := GetLine(old(conn.Unread()), text, HTTP_HEADER_MAXLEN);
              text <= l.text && conn.Unread() == l.rest && ret == (if l.Line? then |l.text| - |text| else -1)
              && conn.stat == (if l.NoLine? && l.eof then Closed else old(conn.stat))
              && buf.Contents() == (if ret > 0 then l.text + [NUL] else l.text)
    {
      hide GetLine, CString;
      ghost var text, ents := buf.Contents(), table;
      GetLineGrows(conn.Unread(), text, HTTP_HEADER_MAXLEN);
      ret := conn.Gets(HTTP_HEADER_MAXLEN, buf);
      if ret > 0 {
        buf.Append(NUL);
      }
      FieldsKept(text, buf.Contents(), ents);
    }

    /** One round of the loop of net_fetch_headers. */
    method FetchHeader(conn: Conn) returns (more: bool, status: Status)
      requires Valid() && conn.Valid() && buf.p != conn.buf
      modifies this`table, buf, buf.p, conn`bufS, conn`bufE, conn`stat, conn`arriving, conn.buf
      ensures Valid() && conn.Valid() && (buf.p == old(buf.p) || fresh(buf.p))
      ensures var h := OneHeader(old(conn.Unread()), old(buf.Contents()));
              more == h.Header? && buf.Contents() == h.text && conn.Unread() == h.rest
      ensures var h := OneHeader(old(conn.Unread()), old(buf.Contents()));
              if h.Header? then table == old(table) + [h.ent] && conn.stat == old(conn.stat)
              else table == old(table) && status == h.status && conn.stat == (if h.eof then Closed else old(conn.stat))
    {
      hide GetLine, OneHeader, ParseAt, Settled;
      ghost var u, text := conn.Unread(), buf.Contents();
      OneHeaderKeeps(u, text, table);
      LineParsed(u, text, table);
      var p0 := buf.len;
      var ret := GetHeaderLine(conn);
      if ret <= 0 { return false, if ret == 0 then Fetched else Failed; }
      assert buf.p[buf.len - 1] == buf.Contents()[buf.len - 1];
      status := ParseHeader(p0);
      more := status == Fetched;
    }

    /** net_fetch_headers */
    method FetchHeaders(conn: Conn) returns (status: Status)
      requires Valid() && conn.Valid() && buf.p != conn.buf
      modifies this`table, buf, buf.p, conn`bufS, conn`bufE, conn`stat, conn`arriving, conn.buf
      ensures Valid() && conn.Valid() && (buf.p == old(buf.p) || fresh(buf.p))
      ensures var f := FetchFrom(old(conn.Unread()), old(buf.Contents()), old(table));
              status == f.status && buf.Contents() == f.text && table == f.ents && conn.Unread() == f.rest
              && conn.stat == (if f.eof then Closed else old(conn.stat))
    {
      hide OneHeader, Settled;
      ghost var f := FetchFrom(conn.Unread(), buf.Contents(), table);
      while true
        invariant Valid() && conn.Valid() && (buf.p == old(buf.p) || fresh(buf.p)) && buf.p != conn.buf
        invariant FetchFrom(conn.Unread(), buf.Contents(), table) == f && conn.stat == old(conn.stat)
        decreases |conn.Unread()|
      {
        var more;
        more, status := FetchHeader(conn);
        if !more { return; }
      }
    }

    /** net_fetch_http: the buffer never grows past its limit. */
    method FetchHttp(conn: Conn) returns (status: Status)
      requires Valid() && conn.Valid() && buf.p != conn.buf && table == [] && buf.Contents() == []
      modifies this`table, buf, buf.p, conn`bufS, conn`bufE, conn`stat, conn`arriving, conn.buf
      ensures Valid() && conn.Valid() && (buf.p == old(buf.p) || fresh(buf.p))
      ensures var f := FetchAll(old(conn.Unread()));
              status == f.status && buf.Contents() == f.text && table == f.ents && conn.Unread() == f.rest
              && conn.stat == (if f.eof then Closed else old(conn.stat))
      ensures buf.len <= HTTP_HEADER_MAXLEN - 1
    {
      hide GetLine, FetchFrom;
      FetchBound(conn.Unread());
      var ret := GetHeaderLine(conn);
      if ret <= 0 { return if ret == 0 then Fetched else Failed; }
      status := FetchHeaders(conn);
    }

    /** net_append_headers */
    method AppendHeaders(out: StrBuf)
      requires Valid() && out.Valid() && out != buf && out.p != buf.p
      modifies out, out.p
      ensures Valid() && out.Valid() && out.Contents() == old(out.Contents()) + Printed(Fields())
      ensures out.p == old(out.p) || fresh(out.p)
    {
      hide LineOf, FieldOf, Settled, CString;
      ghost var fs := Fields();
      var k := 0;
      assert fs[0..] == fs;
      while k < |table|
        invariant k <= |table| && Valid() && Fields() == fs && out.Valid() && (out.p == old(out.p) || fresh(out.p))
        invariant out.p != buf.p
        invariant out.Contents() + Printed(fs[k..]) == old(out.Contents()) + Printed(fs)
      {
        PrintedFrom(out.Contents(), fs, k);
        var e := table[k];
        SettledField(buf.Contents(), table, k);
        assert buf.p[e.off..buf.len] == buf.Contents()[e.off..];
        CatLine(out, e.key, buf.p[e.off..buf.len]);
        k := k + 1;
      }
      CStringPlain();
      out.Cat(CRLF);
    }

    /** net_data_get_ent: the value of some entry with the key, if there is one. */
    method GetEnt(key: seq<byte>) returns (val: Option<seq<byte>>)
      requires Valid()
      ensures IsValue(Fields(), key, val)
    {
      if k :| 0 <= k < |table| && table[k].key == key {
        val := Some(CString(buf.p[table[k].off..buf.len]));
        assert Fields()[k] == Field(key, val.value);
      } else {
        val := None;
      }
    }
  }

  /** One round of the loop of net_append_headers: four strbuf_cat. */
  method CatLine(out: StrBuf, key: seq<byte>, val: seq<byte>)
    requires out.Valid() && NUL !in key
    modifies out, out.p
    ensures out.Valid() && (out.p == old(out.p) || fresh(out.p))
    ensures out.Contents() == old(out.Contents()) + (LineOf(Field(key, CString(val))) + CRLF)
  {
    hide CString;
    ghost var was := out.Contents();
    CStringIs(key, key);
    CStringPlain();
    out.Cat(key);
    out.Cat([COLON, SPACE]);
    out.Cat(val);
    out.Cat(CRLF);
    LineInPieces(was, key, CString(val));
  }

  lemma LineInPieces(was: seq<byte>, key: seq<byte>, val: seq<byte>)
    ensures was + key + [COLON, SPACE] + val + CRLF == was + (LineOf(Field(key, val)) + CRLF)
  {
  }

  lemma SettledField(text: seq<byte>, ents: seq<Ent>, k: nat)
    requires Settled(text, ents) && k < |ents|
    ensures NUL !in ents[k].key && ents[k].off <= |text|
    ensures Headers.Fields(text, ents)[k] == Field(ents[k].key, CString(text[ents[k].off..]))
  {
    assert SettledAt(text, ents[k]);
  }

  lemma CStringPlain()
    ensures CString([COLON, SPACE]) == [COLON, SPACE] && CString(CRLF) == CRLF
  {
    CStringIs([COLON, SPACE], [COLON, SPACE]);
    CStringIs(CRLF, CRLF);
  }

  lemma PrintedFrom(was: seq<byte>, fs: seq<Field>, k: nat)
    requires k < |fs|
    ensures was + Printed(fs[k..]) == was + (LineOf(fs[k]) + CRLF) + Printed(fs[k + 1..])
  {
    assert fs[k..][1..] == fs[k + 1..];
  }

  /** The round on byte sequences, in terms of the line read and net_parse_header. */
  lemma LineParsed(u: seq<byte>, text: seq<byte>, ents: seq<Ent>)
    ensures var h, l := OneHeader(u, text), GetLine(u, text, HTTP_HEADER_MAXLEN);
            h.rest == l.rest
            && (l.NoLine? ==> h == NoMore(l.text, l.rest, Failed, l.eof))
            && (l.Line? && |l.text| <= |text| ==> h == NoMore(text, l.rest, Fetched, false))
            && (l.Line? && |l.text| > |text| ==>
                  (h.NoMore? ==> !h.eof)
                  && ParseAt(l.text + [NUL], |text|, ents)
                       == if h.Header? then Parsed(h.text, ents + [h.ent], Fetched) else Parsed(h.text, ents, h.status))
            && (l.Line? ==> text <= l.text)
            && (h.NoMore? ==> h.status != Fetched || |l.text| <= |text|)
  {
    hide GetLine, ParseLine, CString;
    GetLineGrows(u, text, HTTP_HEADER_MAXLEN);
    var l := GetLine(u, text, HTTP_HEADER_MAXLEN);
    if l.Line? && |l.text| > |text| {
      assert (l.text + [NUL])[|text|..] == l.text[|text|..] + [NUL];
      CStringEnds(l.text[|text|..]);
    }
  }

  /** With a NUL at its end the key is a C string of its own. */
  lemma KeyCut(text: seq<byte>, p0: nat, s: seq<byte>, ks: nat, ke: nat)
    requires p0 <= |text| && s <= text[p0..] && NUL !in s && ks <= ke < |s|
    ensures CString(text[p0 + ke := NUL][p0 + ks..]) == s[ks..ke]
  {
    hide CString;
    var t := text[p0 + ke := NUL][p0 + ks..];
    assert text[p0..][..|s|] == s;
    assert t[..ke - ks] == s[ks..ke];
    CStringIs(t, s[ks..ke]);
  }

  /** A C string stops before a NUL that ends the bytes. */
  lemma NulInside(t: seq<byte>)
    requires t != [] && t[|t| - 1] == NUL
    ensures |CString(t)| < |t| && t[|CString(t)|] == NUL
  {
    CStringEnds(t[..|t| - 1]);
    assert t == t[..|t| - 1] + [NUL];
  }

  lemma CStringEnds(s: seq<byte>)
    ensures CString(s + [NUL]) == CString(s)
  {
    CStringIs(s + [NUL], CString(s));
  }

  /** The entries there were, and a new one, end inside the new text. */
  lemma OneHeaderKeeps(u: seq<byte>, text: seq<byte>, ents: seq<Ent>)
    requires Settled(text, ents)
    ensures var h := OneHeader(u, text);
            text <= h.text && Settled(h.text, if h.Header? then ents + [h.ent] else ents)
  {
    hide OneHeader, SettledAt;
    var h := OneHeader(u, text);
    if h.Header? { HeaderField(u, text); } else { EndKeepsText(u, text); }
    FieldsKept(text, h.text, ents);
  }
}
