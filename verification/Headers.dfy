/** HTTP header fields: reading, parsing and printing them (core/net_data.c, core/net_handle.c). */
module Headers {
  import opened Bytes
  import opened Streams
  import opened StrBufs
  import opened Numerals

  const HTTP_HEADER_MAXLEN: nat := 32 * 1024
  const HTTP_HEADER_KEY_MAXLEN: nat := 32
  const COLON: byte := 58
  const SPACE: byte := 32

  /** The bytes that the pattern of a header line allows in a key: letters, backslash and hyphen. */
  predicate KeyByte(b: byte) {
    65 <= b <= 90 || 97 <= b <= 122 || b == 92 || b == 45
  }

  lemma KeyByteListed(b: byte)
    ensures KeyByte(b) <==> IsLetter(b) || b == '\\' as int || b == '-' as int
  {
    LetterIs(b);
  }

  predicate IsKey(s: seq<byte>) {
    forall i :: 0 <= i < |s| ==> KeyByte(s[i])
  }

  /** A key, a colon, any spaces and the rest of the line: where the key starts and ends, and the value starts. */
  datatype Match = NoMatch | Match(ks: nat, ke: nat, vs: nat)

  function FindColon(s: seq<byte>, j: nat): (r: nat)
    requires j <= |s|
    ensures j <= r <= |s| && (r < |s| ==> r > 0 && s[r] == COLON && KeyByte(s[r - 1]))
    decreases |s| - j
  {
    if j == |s| || (j > 0 && s[j] == COLON && KeyByte(s[j - 1])) then j else FindColon(s, j + 1)
  }

  function KeyStart(s: seq<byte>, j: nat): (r: nat)
    requires j <= |s|
    ensures r <= j && IsKey(s[r..j]) && (r > 0 ==> !KeyByte(s[r - 1]))
  {
    if j > 0 && KeyByte(s[j - 1]) then
      var r := KeyStart(s, j - 1);
      assert s[r..j] == s[r..j - 1] + [s[j - 1]];
      r
    else j
  }

  function SkipSpaces(s: seq<byte>, v: nat): (r: nat)
    requires v <= |s|
    ensures v <= r <= |s| && (r < |s| ==> s[r] != SPACE) && forall i :: v <= i < r ==> s[i] == SPACE
    decreases |s| - v
  {
    if v < |s| && s[v] == SPACE then SkipSpaces(s, v + 1) else v
  }

  /** The match of the pattern in the C string s, which the pattern is not anchored to. */
  function ParseLine(s: seq<byte>): (m: Match)
    ensures m.Match? ==> m.ks < m.ke < m.vs <= |s|
  {
    var j := FindColon(s, 0);
    if j == |s| then NoMatch else Match(KeyStart(s, j), j, SkipSpaces(s, j + 1))
  }

  /** The pattern's own statement of a match: a non-empty key at i..j with a colon after it. */
  predicate KeyAt(s: seq<byte>, i: int, j: int) {
    0 <= i < j < |s| && IsKey(s[i..j]) && s[j] == COLON
  }

  /** The parser finds the leftmost match, and fails only when there is none. */
  lemma {:induction false} ParseLineLeftmost(s: seq<byte>, i: int, j: int)
    requires KeyAt(s, i, j)
    ensures var m := ParseLine(s);
            m.Match? && KeyAt(s, m.ks, m.ke) && m.ks <= i && (m.ks == i ==> m.ke == j)
  {
    KeyBytes(s, i, j);
    FirstColon(s, 0, j);
  }

  lemma KeyBytes(s: seq<byte>, i: nat, j: nat)
    requires i <= j <= |s| && IsKey(s[i..j])
    ensures forall c :: i <= c < j ==> KeyByte(s[c])
  {
    forall c | i <= c < j ensures KeyByte(s[c]) {
      assert s[i..j][c - i] == s[c];
    }
  }

  lemma {:induction false} FirstColon(s: seq<byte>, j: nat, c: nat)
    requires j <= c < |s| && c > 0 && s[c] == COLON && KeyByte(s[c - 1])
    ensures FindColon(s, j) <= c
    decreases c - j
  {
    if j < c && !(j > 0 && s[j] == COLON && KeyByte(s[j - 1])) { FirstColon(s, j + 1, c); }
  }

  /** The parser matches exactly when there is something to match. */
  lemma ParseLineIff(s: seq<byte>)
    ensures ParseLine(s).Match? <==> exists i, j :: KeyAt(s, i, j)
  {
    var m := ParseLine(s);
    if m.Match? {
      assert s[m.ke - 1..m.ke] == [s[m.ke - 1]];
      assert KeyAt(s, m.ke - 1, m.ke);
    }
    forall i, j | KeyAt(s, i, j) ensures m.Match? { ParseLineLeftmost(s, i, j); }
  }

  /** The pattern matches nowhere in s. */
  predicate Unmatched(s: seq<byte>) {
    forall i, j :: 0 <= i < j < |s| ==> !KeyAt(s, i, j)
  }

  predicate AllSpaces(s: seq<byte>) {
    forall i :: 0 <= i < |s| ==> s[i] == SPACE
  }

  /** What the pattern takes a line for: anything that holds no match and does not end in a key byte, a key, a colon, all the
      spaces that there are, and the value. */
  predicate HeaderLine(s: seq<byte>, junk: seq<byte>, key: seq<byte>, spaces: seq<byte>, value: seq<byte>) {
    s == junk + (key + ([COLON] + (spaces + value)))
    && Unmatched(junk) && (junk != [] ==> !KeyByte(junk[|junk| - 1])) && key != [] && IsKey(key)
    && AllSpaces(spaces) && (value != [] ==> value[0] != SPACE)
  }

  /** The same in terms of places in the line. */
  predicate HeaderAt(s: seq<byte>, ks: nat, ke: nat, vs: nat) {
    ks < ke < vs <= |s| && Unmatched(s[..ks]) && (ks > 0 ==> !KeyByte(s[ks - 1])) && IsKey(s[ks..ke])
    && s[ke] == COLON && AllSpaces(s[ke + 1..vs]) && (vs < |s| ==> s[vs] != SPACE)
  }

  lemma PartsAt(s: seq<byte>, junk: seq<byte>, key: seq<byte>, spaces: seq<byte>, value: seq<byte>)
    requires HeaderLine(s, junk, key, spaces, value)
    ensures var j := |junk| + |key|;
            HeaderAt(s, |junk|, j, j + 1 + |spaces|) && s[|junk|..j] == key && s[j + 1 + |spaces|..] == value
  {
    hide Unmatched, AllSpaces, IsKey, KeyByte;
    var j := |junk| + |key|;
    LinePlaces(s, junk, key, spaces, value);
    assert junk != [] ==> s[|junk| - 1] == junk[|junk| - 1];
    assert value != [] ==> s[j + 1 + |spaces|] == s[j + 1 + |spaces|..][0];
  }

  lemma AtParts(s: seq<byte>, ks: nat, ke: nat, vs: nat)
    requires HeaderAt(s, ks, ke, vs)
    ensures HeaderLine(s, s[..ks], s[ks..ke], s[ke + 1..vs], s[vs..])
  {
    hide Unmatched, AllSpaces, IsKey, KeyByte;
    LineParts(s, ks, ke, vs);
    assert ks > 0 ==> s[..ks][ks - 1] == s[ks - 1];
    assert vs < |s| ==> s[vs..][0] == s[vs];
  }

  /** The parser takes a line apart that way. */
  lemma ParseSplits(s: seq<byte>)
    requires ParseLine(s).Match?
    ensures var m := ParseLine(s); HeaderLine(s, s[..m.ks], s[m.ks..m.ke], s[m.ke + 1..m.vs], s[m.vs..])
  {
    hide FindColon, KeyStart, SkipSpaces, Unmatched, AllSpaces, IsKey, KeyByte, HeaderLine;
    var m := ParseLine(s);
    UnmatchedBefore(s, m.ks, m.ke);
    SpacesBetween(s, m.ke + 1);
    AtParts(s, m.ks, m.ke, m.vs);
  }

  lemma SpacesBetween(s: seq<byte>, v: nat)
    requires v <= |s|
    ensures AllSpaces(s[v..SkipSpaces(s, v)])
  {
  }

  lemma UnmatchedBefore(s: seq<byte>, ks: nat, ke: nat)
    requires ks <= ke <= |s| && FindColon(s, 0) == ke
    ensures Unmatched(s[..ks])
  {
    hide IsKey, KeyByte;
    var junk := s[..ks];
    forall i, j | 0 <= i < j < ks ensures !KeyAt(junk, i, j) {
      if KeyAt(junk, i, j) {
        assert junk[i..j] == s[i..j] && junk[j] == s[j];
        KeyBytes(s, i, j);
        FirstColon(s, 0, j);
      }
    }
  }

  lemma LineParts(s: seq<byte>, ks: nat, ke: nat, vs: nat)
    requires ks <= ke < vs <= |s| && s[ke] == COLON
    ensures s == s[..ks] + (s[ks..ke] + ([COLON] + (s[ke + 1..vs] + s[vs..])))
  {
  }

  /** And there is only one way to do it. */
  lemma HeaderLineParsed(s: seq<byte>, junk: seq<byte>, key: seq<byte>, spaces: seq<byte>, value: seq<byte>)
    requires HeaderLine(s, junk, key, spaces, value)
    ensures var j := |junk| + |key|; ParseLine(s) == Match(|junk|, j, j + 1 + |spaces|)
    ensures s[|junk|..|junk| + |key|] == key && s[|junk| + |key| + 1 + |spaces|..] == value
  {
    hide HeaderLine, HeaderAt, ParseLine;
    var j := |junk| + |key|;
    PartsAt(s, junk, key, spaces, value);
    ParsedAt(s, |junk|, j, j + 1 + |spaces|);
  }

  lemma ParsedAt(s: seq<byte>, ks: nat, ke: nat, vs: nat)
    requires HeaderAt(s, ks, ke, vs)
    ensures ParseLine(s) == Match(ks, ke, vs)
  {
    hide FindColon, KeyStart, SkipSpaces, Unmatched, AllSpaces, IsKey, KeyByte;
    KeyThenColon(s, ks, ke);
    KeyStartIs(s, ks, ke);
    SpacesEnd(s, ke + 1, vs);
  }

  lemma KeyThenColon(s: seq<byte>, ks: nat, ke: nat)
    requires ks < ke < |s| && Unmatched(s[..ks]) && (ks > 0 ==> !KeyByte(s[ks - 1])) && IsKey(s[ks..ke]) && s[ke] == COLON
    ensures FindColon(s, 0) == ke
  {
    UnmatchedHas(s[..ks]);
    KeyBytes(s, ks, ke);
    hide Unmatched, IsKey;
    forall c | 0 < c < ke ensures !(s[c] == COLON && KeyByte(s[c - 1])) {
      assert c < ks ==> s[..ks][c] == s[c] && s[..ks][c - 1] == s[c - 1];
    }
    ColonIs(s, 0, ke);
  }

  lemma UnmatchedHas(junk: seq<byte>)
    requires Unmatched(junk)
    ensures forall c :: 0 < c < |junk| ==> !(junk[c] == COLON && KeyByte(junk[c - 1]))
  {
    forall c | 0 < c < |junk| ensures !(junk[c] == COLON && KeyByte(junk[c - 1])) {
      assert junk[c - 1..c] == [junk[c - 1]];
      assert !KeyAt(junk, c - 1, c);
    }
  }

  lemma LinePlaces(s: seq<byte>, junk: seq<byte>, key: seq<byte>, spaces: seq<byte>, value: seq<byte>)
    requires s == junk + (key + ([COLON] + (spaces + value)))
    ensures var j := |junk| + |key|;
            s[..|junk|] == junk && s[|junk|..j] == key && s[j] == COLON && s[j + 1..j + 1 + |spaces|] == spaces
            && s[j + 1 + |spaces|..] == value
  {
    var j := |junk| + |key|;
    assert s[|junk|..] == key + ([COLON] + (spaces + value));
    assert s[j..] == [COLON] + (spaces + value);
    assert s[j + 1..] == spaces + value;
  }

  lemma {:induction false} ColonIs(s: seq<byte>, i: nat, j: nat)
    requires i <= j < |s| && j > 0 && s[j] == COLON && KeyByte(s[j - 1])
    requires forall c :: 0 < c < j ==> !(s[c] == COLON && KeyByte(s[c - 1]))
    ensures FindColon(s, i) == j
    decreases j - i
  {
    if i < j { ColonIs(s, i + 1, j); }
  }

  lemma {:induction false} KeyStartIs(s: seq<byte>, i: nat, j: nat)
    requires i <= j <= |s| && IsKey(s[i..j]) && (i > 0 ==> !KeyByte(s[i - 1]))
    ensures KeyStart(s, j) == i
  {
    if i < j {
      assert s[i..j][j - 1 - i] == s[j - 1] && s[i..j - 1] == s[i..j][..j - 1 - i];
      KeyStartIs(s, i, j - 1);
    }
  }

  lemma {:induction false} SpacesEnd(s: seq<byte>, v: nat, r: nat)
    requires v <= r <= |s| && AllSpaces(s[v..r]) && (r < |s| ==> s[r] != SPACE)
    ensures SkipSpaces(s, v) == r
    decreases r - v
  {
    if v < r {
      assert s[v..r][0] == s[v] && s[v + 1..r] == s[v..r][1..];
      SpacesEnd(s, v + 1, r);
    }
  }

  /** A header field, and the table's record of one. */
  datatype Field = Field(key: seq<byte>, value: seq<byte>)

  datatype Ent = Ent(key: seq<byte>, off: nat)

  /** Each value ends inside the text. */
  predicate Settled(text: seq<byte>, ents: seq<Ent>) {
    forall k :: 0 <= k < |ents| ==> SettledAt(text, ents[k])
  }

  predicate SettledAt(text: seq<byte>, e: Ent) {
    e.off <= |text| && e.off + |CString(text[e.off..])| < |text| && NUL !in e.key
  }

  function FieldOf(text: seq<byte>, e: Ent): Field {
    Field(e.key, if e.off <= |text| then CString(text[e.off..]) else [])
  }

  function Fields(text: seq<byte>, ents: seq<Ent>): (fs: seq<Field>)
    ensures |fs| == |ents| && forall k :: 0 <= k < |fs| ==> fs[k] == FieldOf(text, ents[k])
  {
    if ents == [] then [] else Fields(text, ents[..|ents| - 1]) + [FieldOf(text, ents[|ents| - 1])]
  }

  /** The fields that can be written as header lines and read back. */
  predicate Writable(f: Field) {
    0 < |f.key| < HTTP_HEADER_KEY_MAXLEN && IsKey(f.key) && LineBytes(f.value) && NUL !in f.value
    && (f.value != [] ==> f.value[0] != SPACE)
  }

  predicate AllWritable(fs: seq<Field>) {
    forall k :: 0 <= k < |fs| ==> Writable(fs[k])
  }

  /** A header line without its end. */
  function LineOf(f: Field): seq<byte> { f.key + [COLON, SPACE] + f.value }

  /** What net_append_headers writes: a line for each field, and an empty line. */
  function Printed(fs: seq<Field>): seq<byte> {
    if fs == [] then CRLF else LineOf(fs[0]) + CRLF + Printed(fs[1..])
  }

  /** The room the fields take in the buffer, a NUL after each line. */
  function Size(fs: seq<Field>): nat {
    if fs == [] then 0 else |LineOf(fs[0])| + 1 + Size(fs[1..])
  }

  datatype Status = Fetched | Failed | KeyTooLong

  /** The header buffer and table after fetching, what is left of the stream, and whether its end was met. */
  datatype Fetch = Fetch(text: seq<byte>, ents: seq<Ent>, rest: seq<byte>, status: Status, eof: bool)

  /** A line of the text from p0 on, once parsed. */
  function Stored(text: seq<byte>, p0: nat, m: Match): (r: seq<byte>)
    requires m.Match? && p0 + m.ke < |text|
    ensures |r| == |text| + 1
  {
    (text + [NUL])[p0 + m.ke := NUL]
  }

  /** One round of the loop of net_fetch_headers: the end of the headers, for better or worse, or one more entry. */
  datatype HeaderResult =
    | NoMore(text: seq<byte>, rest: seq<byte>, status: Status, eof: bool)
    | Header(text: seq<byte>, rest: seq<byte>, ent: Ent)

  function OneHeader(u: seq<byte>, text: seq<byte>): (h: HeaderResult)
    ensures h.Header? ==> |h.rest| < |u|
  {
    GetLineGrows(u, text, HTTP_HEADER_MAXLEN);
    var l := GetLine(u, text, HTTP_HEADER_MAXLEN);
    if l.NoLine? then NoMore(l.text, l.rest, Failed, l.eof)
    else if |l.text| == |text| then NoMore(text, l.rest, Fetched, false)
    else
      var s := CString(l.text[|text|..]);
      var m := ParseLine(s);
      if m.NoMatch? then NoMore(l.text + [NUL], l.rest, Failed, false)
      else if m.ke - m.ks >= HTTP_HEADER_KEY_MAXLEN then NoMore(l.text + [NUL], l.rest, KeyTooLong, false)
      else Header(Stored(l.text, |text|, m), l.rest, Ent(s[m.ks..m.ke], |text| + m.vs))
  }

  /** net_fetch_headers: lines are added to the text, a NUL after each and one at the end of each key. */
  function FetchFrom(u: seq<byte>, text: seq<byte>, ents: seq<Ent>): Fetch
    decreases |u|
  {
    var h := OneHeader(u, text);
    if h.NoMore? then Fetch(h.text, ents, h.rest, h.status, h.eof)
    else FetchFrom(h.rest, h.text, ents + [h.ent])
  }

  /** net_fetch_http: a start line and the headers; an empty start line ends the fetching without failure. */
  function FetchAll(u: seq<byte>): Fetch {
    var l := GetLine(u, [], HTTP_HEADER_MAXLEN);
    if l.NoLine? then Fetch(l.text, [], l.rest, Failed, l.eof)
    else if l.text == [] then Fetch([], [], l.rest, Fetched, false)
    else FetchFrom(l.rest, l.text + [NUL], [])
  }

  lemma {:induction false} FromBound(u: seq<byte>, text: seq<byte>, ents: seq<Ent>)
    requires |text| < HTTP_HEADER_MAXLEN
    ensures |FetchFrom(u, text, ents).text| < HTTP_HEADER_MAXLEN
    decreases |u|
  {
    hide OneHeader;
    var h := OneHeader(u, text);
    HeaderBound(u, text);
    if h.Header? { FromBound(h.rest, h.text, ents + [h.ent]); }
  }

  lemma HeaderBound(u: seq<byte>, text: seq<byte>)
    requires |text| < HTTP_HEADER_MAXLEN
    ensures |OneHeader(u, text).text| < HTTP_HEADER_MAXLEN
  {
    hide GetLine;
    GetLineBound(u, text, HTTP_HEADER_MAXLEN);
  }

  /** The buffer stays within the limit on any input, although the test for it is an equality. */
  lemma FetchBound(u: seq<byte>)
    ensures |FetchAll(u).text| <= HTTP_HEADER_MAXLEN - 1
  {
    GetLineBound(u, [], HTTP_HEADER_MAXLEN);
    var l := GetLine(u, [], HTTP_HEADER_MAXLEN);
    if l.Line? && l.text != [] { FromBound(l.rest, l.text + [NUL], []); }
  }

  // ---- Message heads that are cut short, and those that begin with an empty line

  lemma HeaderMore(u: seq<byte>, more: seq<byte>, text: seq<byte>)
    ensures var h := OneHeader(u, text);
            if h.NoMore? && h.eof then h.rest == [] && h.status == Failed
            else OneHeader(u + more, text) == h.(rest := h.rest + more)
  {
    hide GetLine, CString, ParseLine, Stored;
    GetLineMore(u, more, text, HTTP_HEADER_MAXLEN);
  }

  lemma {:induction false} FetchMore(u: seq<byte>, more: seq<byte>, text: seq<byte>, ents: seq<Ent>)
    ensures var f := FetchFrom(u, text, ents);
            if f.eof then f.rest == [] && f.status == Failed
            else FetchFrom(u + more, text, ents) == f.(rest := f.rest + more)
    decreases |u|
  {
    hide OneHeader;
    HeaderMore(u, more, text);
    var h := OneHeader(u, text);
    if h.Header? { FetchMore(h.rest, more, h.text, ents + [h.ent]); }
  }

  /** Only the end of the stream leaves a message head open, and then the fetching fails: whatever else the outcome is, it
      does not depend on what follows. */
  lemma FetchAllMore(u: seq<byte>, more: seq<byte>)
    ensures var f := FetchAll(u);
            if f.eof then f.rest == [] && f.status == Failed else FetchAll(u + more) == f.(rest := f.rest + more)
  {
    hide GetLine, FetchFrom;
    GetLineMore(u, more, [], HTTP_HEADER_MAXLEN);
    var l := GetLine(u, [], HTTP_HEADER_MAXLEN);
    if l.Line? && l.text != [] { FetchMore(l.rest, more, l.text + [NUL], []); }
  }

  /** A message head that is fetched whole fails, at the end of the stream, when it is cut short anywhere, be it inside the
      start line, inside the headers or before its first byte. */
  lemma HeadCutShort(head: seq<byte>, u: seq<byte>)
    requires FetchAll(head).status == Fetched && FetchAll(head).rest == [] && u < head
    ensures FetchAll(u).status == Failed && FetchAll(u).eof
  {
    hide FetchAll;
    var more := head[|u|..];
    assert u + more == head && more != [];
    FetchAllMore(u, more);
  }

  lemma LineEndIn(u: seq<byte>, t: seq<byte>, rest: seq<byte>)
    requires EndsLine(u, t, rest)
    ensures CR in u || LF in u
  {
    assert u[|t|] == CR || u[|t|] == LF;
  }

  /** A stream without a line end fails; it has then ended, if it is shorter than the limit and free of bytes that read
      as -1. */
  lemma NoLineEnd(u: seq<byte>)
    requires CR !in u && LF !in u
    ensures FetchAll(u).status == Failed
    ensures |u| + 1 < HTTP_HEADER_MAXLEN && 255 !in u ==> FetchAll(u).eof && FetchAll(u).text == u
  {
    hide GetLine, FetchFrom;
    var l := GetLine(u, [], HTTP_HEADER_MAXLEN);
    if l.Line? {
      GetLineInverse(u, [], HTTP_HEADER_MAXLEN);
      LineEndIn(u, l.text[0..], l.rest);
    }
    if |u| + 1 < HTTP_HEADER_MAXLEN && 255 !in u {
      GetLineOpen(u, [], HTTP_HEADER_MAXLEN);
      assert [] + u == u;
    }
  }

  /** An empty start line, however it ends, is a success without start line and headers; what follows it stays. */
  lemma EmptyStart(u: seq<byte>, rest: seq<byte>)
    requires EndsLine(u, [], rest)
    ensures FetchAll(u) == Fetch([], [], rest, Fetched, false)
  {
    hide GetLine, FetchFrom;
    GetLineCRLF([], rest, [], HTTP_HEADER_MAXLEN);
    GetLineLoneEnd([], rest, [], HTTP_HEADER_MAXLEN);
  }

  lemma {:induction false} CStringIs(s: seq<byte>, c: seq<byte>)
    requires c <= s && NUL !in c && (|c| < |s| ==> s[|c|] == NUL)
    ensures CString(s) == c
  {
    if c != [] {
      assert s[0] == c[0] && c[0] in c;
      CStringIs(s[1..], c[1..]);
      assert c == [c[0]] + c[1..];
    }
  }

  /** A value that ends inside the text survives whatever is added, wherever the buffer moves to. */
  lemma FieldKept(text: seq<byte>, more: seq<byte>, e: Ent)
    requires SettledAt(text, e) && text <= more
    ensures SettledAt(more, e) && FieldOf(more, e) == FieldOf(text, e)
  {
    var c := CString(text[e.off..]);
    assert more[e.off..][..|text| - e.off] == text[e.off..];
    CStringIs(more[e.off..], c);
  }

  lemma FieldsKept(text: seq<byte>, more: seq<byte>, ents: seq<Ent>)
    requires Settled(text, ents) && text <= more
    ensures Settled(more, ents) && Fields(more, ents) == Fields(text, ents)
  {
    forall k | 0 <= k < |ents| ensures SettledAt(more, ents[k]) && FieldOf(more, ents[k]) == FieldOf(text, ents[k]) {
      FieldKept(text, more, ents[k]);
    }
  }

  /** The stored line: the key is cut off by a NUL, the value by the NUL after the line. */
  lemma StoredValue(text: seq<byte>, line: seq<byte>, m: Match)
    requires var s := CString(line); m.Match? && m.ks < m.ke < m.vs <= |s|
    ensures text <= Stored(text + line, |text|, m)
    ensures var s := CString(line); CString(Stored(text + line, |text|, m)[|text| + m.vs..]) == s[m.vs..]
  {
    var s := CString(line);
    hide CString;
    StoredTail(text, line, m);
    ValueInLine(line, s, m.vs);
    CStringIs(line[m.vs..] + [NUL], s[m.vs..]);
  }

  lemma StoredTail(text: seq<byte>, line: seq<byte>, m: Match)
    requires m.Match? && m.ke < m.vs <= |line|
    ensures var t := Stored(text + line, |text|, m); text <= t && t[|text| + m.vs..] == line[m.vs..] + [NUL]
  {
    var t := Stored(text + line, |text|, m);
    assert t[..|text|] == text;
    assert t[|text| + m.vs..] == line[m.vs..] + [NUL];
  }

  lemma ValueInLine(line: seq<byte>, s: seq<byte>, vs: nat)
    requires s <= line && vs <= |s| && NUL !in s && (|s| < |line| ==> line[|s|] == NUL)
    ensures var t, c := line[vs..] + [NUL], s[vs..]; c <= t && NUL !in c && t[|c|] == NUL
  {
    assert line[..|s|] == s;
    assert line[vs..][..|s| - vs] == s[vs..];
  }

  /** The key and the value that the pattern finds in a line. */
  ghost predicate HasField(s: seq<byte>, f: Field) {
    exists junk, spaces :: HeaderLine(s, junk, f.key, spaces, f.value)
  }

  lemma HasFieldIs(s: seq<byte>, f: Field)
    ensures HasField(s, f) <==> ParseLine(s).Match? && ParsedField(s) == f
  {
    hide ParseLine, HeaderLine;
    forall junk, spaces | HeaderLine(s, junk, f.key, spaces, f.value)
      ensures ParseLine(s).Match? && ParsedField(s) == f
    {
      HeaderLineParsed(s, junk, f.key, spaces, f.value);
    }
    if ParseLine(s).Match? { ParseSplits(s); }
  }

  /** A new entry refers to the key and value of its line, and can be written as a header. */
  lemma HeaderField(u: seq<byte>, text: seq<byte>)
    requires OneHeader(u, text).Header?
    ensures var h := OneHeader(u, text);
            text <= h.text && SettledAt(h.text, h.ent) && Writable(FieldOf(h.text, h.ent))
    ensures var h, l := OneHeader(u, text), GetLine(u, text, HTTP_HEADER_MAXLEN);
            text <= l.text && HasField(CString(l.text[|text|..]), FieldOf(h.text, h.ent))
            && FieldOf(h.text, h.ent) == ParsedField(CString(l.text[|text|..]))
  {
    hide OneHeader, GetLine, ParseLine, CString, ParsedField, FieldOf, SettledAt, Writable, HasField;
    var l := GetLine(u, text, HTTP_HEADER_MAXLEN);
    HeaderParts(u, text);
    var line := l.text[|text|..];
    StoredField(text, line);
    ParsedWritable(CString(line));
    HasFieldIs(CString(line), ParsedField(CString(line)));
  }

  /** A new entry is that of the line that was read. */
  lemma HeaderParts(u: seq<byte>, text: seq<byte>)
    requires OneHeader(u, text).Header?
    ensures var h, l := OneHeader(u, text), GetLine(u, text, HTTP_HEADER_MAXLEN);
            text <= l.text && LineBytes(l.text[|text|..]) && IsStored(text, l.text[|text|..], h.text, h.ent)
  {
    hide GetLine, ParseLine, CString, LineBytes;
    GetLineInverse(u, text, HTTP_HEADER_MAXLEN);
    var l := GetLine(u, text, HTTP_HEADER_MAXLEN);
    assert l.text == text + l.text[|text|..];
  }

  /** The text and the entry that a line gives. */
  predicate IsStored(text: seq<byte>, line: seq<byte>, text': seq<byte>, e: Ent) {
    var s := CString(line);
    var m := ParseLine(s);
    m.Match? && m.ke - m.ks < HTTP_HEADER_KEY_MAXLEN && text' == Stored(text + line, |text|, m)
    && e == Ent(s[m.ks..m.ke], |text| + m.vs)
  }

  lemma StoredField(text: seq<byte>, line: seq<byte>)
    requires LineBytes(line) && ParseLine(CString(line)).Match?
    ensures LineBytes(CString(line)) && NUL !in CString(line)
    ensures forall text', e :: IsStored(text, line, text', e) ==>
              text <= text' && SettledAt(text', e) && FieldOf(text', e) == ParsedField(CString(line))
  {
    hide ParseLine, CString;
    StoredValue(text, line, ParseLine(CString(line)));
  }

  /** The field of a line that the pattern matches. */
  function ParsedField(s: seq<byte>): Field {
    var m := ParseLine(s);
    if m.Match? then Field(s[m.ks..m.ke], s[m.vs..]) else Field([], [])
  }

  lemma ParsedWritable(s: seq<byte>)
    requires LineBytes(s) && NUL !in s && ParseLine(s).Match? && ParseLine(s).ke - ParseLine(s).ks < HTTP_HEADER_KEY_MAXLEN
    ensures Writable(ParsedField(s))
  {
  }

  /** A header line is read as its key and its value; a key of 32 bytes or more is not stored. */
  lemma HeaderRead(line: seq<byte>, rest: seq<byte>, text: seq<byte>, junk: seq<byte>, f: Field, spaces: seq<byte>)
    requires line != [] && LineBytes(line) && |text| + |line| + 1 < HTTP_HEADER_MAXLEN
    requires HeaderLine(CString(line), junk, f.key, spaces, f.value)
    ensures var h := OneHeader(line + CRLF + rest, text);
            h.rest == rest &&
              if |f.key| < HTTP_HEADER_KEY_MAXLEN then
                h.Header? && text <= h.text && SettledAt(h.text, h.ent) && FieldOf(h.text, h.ent) == f
              else h.NoMore? && h.status == KeyTooLong
  {
    hide OneHeader, GetLine, ParseLine, ParsedField, CString, HeaderLine, FieldOf, SettledAt, Writable, HasField, LineBytes;
    ParsedIs(CString(line), junk, f, spaces);
    HeaderMatched(line, rest, text);
    if |f.key| < HTTP_HEADER_KEY_MAXLEN { HeaderField(line + CRLF + rest, text); }
  }

  lemma ParsedIs(s: seq<byte>, junk: seq<byte>, f: Field, spaces: seq<byte>)
    requires HeaderLine(s, junk, f.key, spaces, f.value)
    ensures var m := ParseLine(s); m.Match? && m.ke - m.ks == |f.key| && ParsedField(s) == f
  {
    hide ParseLine, HeaderLine;
    HeaderLineParsed(s, junk, f.key, spaces, f.value);
  }

  lemma HeaderMatched(line: seq<byte>, rest: seq<byte>, text: seq<byte>)
    requires line != [] && LineBytes(line) && |text| + |line| + 1 < HTTP_HEADER_MAXLEN && ParseLine(CString(line)).Match?
    ensures GetLine(line + CRLF + rest, text, HTTP_HEADER_MAXLEN) == Line(text + line, rest)
    ensures (text + line)[|text|..] == line
    ensures var h, m := OneHeader(line + CRLF + rest, text), ParseLine(CString(line));
            h.rest == rest && if m.ke - m.ks < HTTP_HEADER_KEY_MAXLEN then h.Header? else h.NoMore? && h.status == KeyTooLong
  {
    hide GetLine, ParseLine, CString, LineBytes, Stored;
    GetLineCRLF(line, rest, text, HTTP_HEADER_MAXLEN);
    assert (text + line)[|text|..] == line;
  }

  /** A line that the pattern does not match is an error. */
  lemma HeaderRefused(line: seq<byte>, rest: seq<byte>, text: seq<byte>)
    requires line != [] && LineBytes(line) && |text| + |line| + 1 < HTTP_HEADER_MAXLEN && Unmatched(CString(line))
    ensures OneHeader(line + CRLF + rest, text) == NoMore(text + line + [NUL], rest, Failed, false)
  {
    hide GetLine, ParseLine, CString;
    GetLineCRLF(line, rest, text, HTTP_HEADER_MAXLEN);
    assert (text + line)[|text|..] == line;
    ParseLineIff(CString(line));
  }

  /** Whatever is fetched: the text only grows, the fields there were stay, and every new one can be written. */
  lemma {:induction false} FetchedFields(u: seq<byte>, text: seq<byte>, ents: seq<Ent>)
    requires Settled(text, ents) && AllWritable(Fields(text, ents))
    ensures var f := FetchFrom(u, text, ents);
            text <= f.text && ents <= f.ents && Settled(f.text, f.ents) && AllWritable(Fields(f.text, f.ents))
    ensures var f := FetchFrom(u, text, ents); Fields(text, ents) == Fields(f.text, f.ents)[..|ents|]
    decreases |u|
  {
    hide OneHeader, FieldOf, Writable, SettledAt, HasField, ParsedField, GetLine, CString;
    var h := OneHeader(u, text);
    if h.Header? {
      HeaderField(u, text);
      FieldsKept(text, h.text, ents);
      var ents' := ents + [h.ent];
      assert ents'[..|ents|] == ents;
      FetchedFields(h.rest, h.text, ents');
      var f := FetchFrom(h.rest, h.text, ents');
      assert Fields(h.text, ents')[..|ents|] == Fields(text, ents);
      SameStart(Fields(f.text, f.ents), |ents|, |ents'|);
    } else {
      EndKeepsText(u, text);
      FieldsKept(text, h.text, ents);
      assert Fields(text, ents)[..|ents|] == Fields(text, ents);
    }
  }

  lemma SameStart<T>(s: seq<T>, n: nat, m: nat)
    requires n <= m <= |s|
    ensures s[..m][..n] == s[..n]
  {
  }

  lemma EndKeepsText(u: seq<byte>, text: seq<byte>)
    requires OneHeader(u, text).NoMore?
    ensures text <= OneHeader(u, text).text
  {
    hide GetLine, ParseLine, CString;
    GetLineGrows(u, text, HTTP_HEADER_MAXLEN);
  }

  /** A printed field is read back as it was. */
  lemma HeaderOfPrinted(f: Field, rest: seq<byte>, text: seq<byte>)
    requires Writable(f) && |text| + |LineOf(f)| + 1 < HTTP_HEADER_MAXLEN
    ensures var h := OneHeader(LineOf(f) + CRLF + rest, text);
            h.Header? && h.rest == rest && |h.text| == |text| + |LineOf(f)| + 1
            && FieldOf(h.text, h.ent) == f && text <= h.text && SettledAt(h.text, h.ent)
  {
    hide GetLine, ParseLine;
    var line, u := LineOf(f), LineOf(f) + CRLF + rest;
    ParsePrinted(f);
    GetLineCRLF(line, rest, text, HTTP_HEADER_MAXLEN);
    assert (text + line)[|text|..] == line;
    HeaderField(u, text);
  }

  lemma ParsePrinted(f: Field)
    requires Writable(f)
    ensures LineBytes(LineOf(f)) && CString(LineOf(f)) == LineOf(f)
    ensures ParseLine(LineOf(f)) == Match(0, |f.key|, |f.key| + 2) && ParsedField(LineOf(f)) == f
  {
    hide CString, LineBytes, ParseLine, HeaderLine;
    PrintedBytes(f);
    PrintedLine(f);
    HeaderLineParsed(LineOf(f), [], f.key, [SPACE], f.value);
  }

  lemma PrintedLine(f: Field)
    requires Writable(f)
    ensures HeaderLine(LineOf(f), [], f.key, [SPACE], f.value)
  {
    hide IsKey, LineBytes;
    assert LineOf(f) == [] + (f.key + ([COLON] + ([SPACE] + f.value)));
  }

  lemma PrintedBytes(f: Field)
    requires Writable(f)
    ensures LineBytes(LineOf(f)) && CString(LineOf(f)) == LineOf(f)
  {
    hide CString;
    var line := LineOf(f);
    forall i | 0 <= i < |line| ensures line[i] != NUL && line[i] != CR && line[i] != LF && line[i] != 255 {
      if |f.key| + 2 <= i { assert line[i] == f.value[i - |f.key| - 2]; }
    }
    CStringIs(line, line);
  }

  /** Whether the printed fields fit behind the text: a line may be read as long as the buffer stays below the limit. */
  predicate Fits(text: seq<byte>, fs: seq<Field>) {
    |text| + Size(fs) + 1 < HTTP_HEADER_MAXLEN
  }

  /** Round trip: what net_append_headers writes is fetched as the same keys and values, in order, duplicates included,
      exactly when it fits; otherwise the fetching fails. */
  lemma {:induction false} FetchPrinted(fs: seq<Field>, rest: seq<byte>, text: seq<byte>, ents: seq<Ent>)
    requires AllWritable(fs) && Settled(text, ents) && |text| < HTTP_HEADER_MAXLEN
    ensures var f := FetchFrom(Printed(fs) + rest, text, ents);
            if Fits(text, fs) then f.status == Fetched && f.rest == rest && Fields(f.text, f.ents) == Fields(text, ents) + fs
            else f.status == Failed
    decreases |fs|
  {
    hide OneHeader, Writable, FieldOf, LineOf, SettledAt;
    if fs == [] {
      EmptyLine(rest, text);
      assert Fields(text, ents) + fs == Fields(text, ents);
    } else if |text| + |LineOf(fs[0])| + 1 < HTTP_HEADER_MAXLEN {
      PrintedStep(fs, rest, text, ents);
      var h := OneHeader(Printed(fs) + rest, text);
      FetchPrinted(fs[1..], rest, h.text, ents + [h.ent]);
      assert Fields(text, ents) + [fs[0]] + fs[1..] == Fields(text, ents) + fs;
    } else {
      PrintedTooLong(fs, rest, text);
    }
  }

  lemma EmptyLine(rest: seq<byte>, text: seq<byte>)
    requires |text| < HTTP_HEADER_MAXLEN
    ensures |text| + 1 < HTTP_HEADER_MAXLEN ==> OneHeader(CRLF + rest, text) == NoMore(text, rest, Fetched, false)
    ensures |text| + 1 == HTTP_HEADER_MAXLEN ==> OneHeader(CRLF + rest, text) == NoMore(text, CRLF + rest, Failed, false)
  {
    if |text| + 1 < HTTP_HEADER_MAXLEN {
      hide GetLine;
      GetLineCRLF([], rest, text, HTTP_HEADER_MAXLEN);
      assert [] + CRLF + rest == CRLF + rest && text + [] == text;
    }
  }

  lemma PrintedStep(fs: seq<Field>, rest: seq<byte>, text: seq<byte>, ents: seq<Ent>)
    requires fs != [] && AllWritable(fs) && Settled(text, ents) && |text| + |LineOf(fs[0])| + 1 < HTTP_HEADER_MAXLEN
    ensures var h := OneHeader(Printed(fs) + rest, text);
            h.Header? && h.rest == Printed(fs[1..]) + rest && AllWritable(fs[1..])
            && |h.text| == |text| + |LineOf(fs[0])| + 1
            && Settled(h.text, ents + [h.ent]) && Fields(h.text, ents + [h.ent]) == Fields(text, ents) + [fs[0]]
  {
    hide Writable, OneHeader, FieldOf, LineOf, SettledAt;
    var u := Printed(fs) + rest;
    assert u == LineOf(fs[0]) + CRLF + (Printed(fs[1..]) + rest);
    HeaderOfPrinted(fs[0], Printed(fs[1..]) + rest, text);
    var h := OneHeader(u, text);
    FieldsKept(text, h.text, ents);
    assert (ents + [h.ent])[..|ents|] == ents;
  }

  /** A line that reaches the limit is not read to its end. */
  lemma {:induction false} LineTooLong(t: seq<byte>, u: seq<byte>, text: seq<byte>, limit: int)
    requires LineBytes(t) && |text| < limit <= |text| + |t| + 1
    ensures var l := GetLine(t + u, text, limit); l.NoLine? && !l.eof
    decreases |t|
  {
    if |text| + 1 < limit {
      assert (t + u)[0] == t[0] && (t + u)[1..] == t[1..] + u;
      LineTooLong(t[1..], u, text + [t[0]], limit);
    }
  }

  lemma PrintedTooLong(fs: seq<Field>, rest: seq<byte>, text: seq<byte>)
    requires fs != [] && Writable(fs[0]) && |text| < HTTP_HEADER_MAXLEN <= |text| + |LineOf(fs[0])| + 1
    ensures var h := OneHeader(Printed(fs) + rest, text); h.NoMore? && h.status == Failed
  {
    hide GetLine, LineOf;
    PrintedBytes(fs[0]);
    assert Printed(fs) + rest == LineOf(fs[0]) + (CRLF + Printed(fs[1..]) + rest);
    LineTooLong(LineOf(fs[0]), CRLF + Printed(fs[1..]) + rest, text, HTTP_HEADER_MAXLEN);
  }

  lemma NoFields(text: seq<byte>)
    ensures Settled(text, []) && Fields(text, []) == [] && AllWritable([])
  {
  }

  /** Parsing, printing and parsing again is parsing, exactly when what is printed fits; otherwise it fails. */
  lemma ParsePrintParse(u: seq<byte>, text0: seq<byte>, rest: seq<byte>, text: seq<byte>)
    requires |text| < HTTP_HEADER_MAXLEN
    ensures var f := FetchFrom(u, text0, []);
            var fs := Fields(f.text, f.ents);
            var g := FetchFrom(Printed(fs) + rest, text, []);
            if Fits(text, fs) then g.status == Fetched && g.rest == rest && Fields(g.text, g.ents) == fs
            else g.status == Failed
  {
    hide FetchFrom, Printed, AllWritable, Fits, Fields, Settled;
    var f := FetchFrom(u, text0, []);
    NoFields(text0);
    NoFields(text);
    FetchedFields(u, text0, []);
    FetchPrinted(Fields(f.text, f.ents), rest, text, []);
    assert [] + Fields(f.text, f.ents) == Fields(f.text, f.ents);
  }

  /** The same for a whole message head, as net_fetch_http gets it: a start line and printed headers are fetched exactly
      when both fit. */
  lemma FetchAllPrinted(start: seq<byte>, fs: seq<Field>, rest: seq<byte>)
    requires start != [] && LineBytes(start) && AllWritable(fs)
    ensures var f := FetchAll(start + CRLF + (Printed(fs) + rest));
            if Fits(start + [NUL], fs) then f.status == Fetched && f.rest == rest && Fields(f.text, f.ents) == fs
            else f.status == Failed
  {
    hide GetLine, Printed, AllWritable;
    var u := Printed(fs) + rest;
    assert [] + start == start && Fields(start + [NUL], []) + fs == fs;
    if |start| + 1 < HTTP_HEADER_MAXLEN {
      GetLineCRLF(start, u, [], HTTP_HEADER_MAXLEN);
      FetchPrinted(fs, rest, start + [NUL], []);
    } else {
      LineTooLong(start, CRLF + u, [], HTTP_HEADER_MAXLEN);
      assert start + CRLF + u == start + (CRLF + u);
    }
  }

  // ---- Headers that are fetched whole and do not fit when printed

  const TIGHT_FIELD: Field := Field([97], [98])

  /** n header lines `a:b` and the empty line. */
  function Tight(n: nat): seq<byte> {
    if n == 0 then CRLF else [97, COLON, 98] + CRLF + Tight(n - 1)
  }

  function Copies(n: nat): (fs: seq<Field>)
    ensures |fs| == n
  {
    if n == 0 then [] else [TIGHT_FIELD] + Copies(n - 1)
  }

  lemma {:induction false} CopiesSize(n: nat)
    ensures Size(Copies(n)) == 5 * n
  {
    if n > 0 { CopiesSize(n - 1); }
  }

  lemma TightParsed()
    ensures ParseLine([97, COLON, 98]) == Match(0, 1, 2)
  {
    var line: seq<byte> := [97, COLON, 98];
    assert FindColon(line, 1) == 1 && FindColon(line, 0) == 1;
    assert KeyStart(line, 0) == 0 && KeyStart(line, 1) == 0;
    assert SkipSpaces(line, 2) == 2;
  }

  lemma TightLine(rest: seq<byte>, text: seq<byte>)
    requires |text| + 4 < HTTP_HEADER_MAXLEN
    ensures var h := OneHeader([97, COLON, 98] + CRLF + rest, text);
            h.Header? && h.rest == rest && |h.text| == |text| + 4 && FieldOf(h.text, h.ent) == TIGHT_FIELD
            && text <= h.text && SettledAt(h.text, h.ent)
  {
    var line: seq<byte> := [97, COLON, 98];
    TightParsed();
    hide GetLine, ParseLine;
    GetLineCRLF(line, rest, text, HTTP_HEADER_MAXLEN);
    assert (text + line)[|text|..] == line;
    CStringIs(line, line);
    assert line[0..1] == [97] && line[2..] == [98];
    HeaderField(line + CRLF + rest, text);
  }

  lemma TightStep(n: nat, text: seq<byte>, ents: seq<Ent>)
    requires n > 0 && Settled(text, ents) && |text| + 4 < HTTP_HEADER_MAXLEN
    ensures var h := OneHeader(Tight(n), text);
            h.Header? && h.rest == Tight(n - 1) && |h.text| == |text| + 4 && Settled(h.text, ents + [h.ent])
            && Fields(h.text, ents + [h.ent]) == Fields(text, ents) + [TIGHT_FIELD]
  {
    hide OneHeader, FieldOf, SettledAt;
    TightLine(Tight(n - 1), text);
    var h := OneHeader(Tight(n), text);
    FieldsKept(text, h.text, ents);
    assert (ents + [h.ent])[..|ents|] == ents;
  }

  lemma {:induction false} TightFetched(n: nat, text: seq<byte>, ents: seq<Ent>)
    requires Settled(text, ents) && |text| + 4 * n + 1 < HTTP_HEADER_MAXLEN
    ensures var f := FetchFrom(Tight(n), text, ents);
            f.status == Fetched && f.rest == [] && Fields(f.text, f.ents) == Fields(text, ents) + Copies(n)
  {
    hide OneHeader, Fields, Settled;
    if n == 0 {
      EmptyLine([], text);
      assert CRLF + [] == CRLF && Tight(0) == CRLF;
      assert Fields(text, ents) + Copies(0) == Fields(text, ents);
    } else {
      TightStep(n, text, ents);
      var h := OneHeader(Tight(n), text);
      TightFetched(n - 1, h.text, ents + [h.ent]);
      CopiesMore(Fields(text, ents), n);
    }
  }

  lemma CopiesMore(fs: seq<Field>, n: nat)
    requires n > 0
    ensures fs + [TIGHT_FIELD] + Copies(n - 1) == fs + Copies(n)
  {
  }

  lemma {:induction false} CopiesWritable(n: nat)
    ensures AllWritable(Copies(n))
  {
    if n > 0 {
      CopiesWritable(n - 1);
      CStringIs([98], [98]);
    }
  }

  /** After a start line, lines `a:b`, as many as fit, are fetched whole; what is printed for them, one byte longer each,
      is not when they are more than about four fifths of that (7000 are enough after a start line of 100 bytes). */
  lemma PrintDoesNotFit(start: seq<byte>, n: nat)
    requires start != [] && LineBytes(start) && |start| + 4 * n + 2 < HTTP_HEADER_MAXLEN <= |start| + 5 * n + 2
    ensures var f := FetchAll(start + CRLF + Tight(n)); f.status == Fetched && Fields(f.text, f.ents) == Copies(n)
    ensures FetchAll(start + CRLF + Printed(Copies(n))).status == Failed
  {
    hide GetLine, FetchFrom, Size, Copies, Tight, Printed, OneHeader, AllWritable;
    GetLineCRLF(start, Tight(n), [], HTTP_HEADER_MAXLEN);
    assert [] + start == start && Fields(start + [NUL], []) + Copies(n) == Copies(n);
    TightFetched(n, start + [NUL], []);
    CopiesSize(n);
    CopiesWritable(n);
    hide FetchAll;
    FetchAllPrinted(start, Copies(n), []);
    assert Printed(Copies(n)) + [] == Printed(Copies(n));
  }
}
