/** Forwarding a chunked message body, on byte sequences (core/net_http.c; section 4.1 of RFC 7230). */
module Chunked {
  import opened Bits
  import opened Bytes
  import opened Streams
  import opened Headers
  import opened Numerals

  const HTTP_CHUNK_HEADER_MAXLEN: nat := 256

  predicate HexDigit(b: byte) {
    48 <= b <= 57 || 65 <= b <= 70 || 97 <= b <= 102
  }

  function HexVal(b: byte): nat
    requires HexDigit(b)
  {
    if b <= 57 then b - 48 else if b <= 70 then b - 55 else b - 87
  }

  predicate AllHex(d: seq<byte>) {
    forall i :: 0 <= i < |d| ==> HexDigit(d[i])
  }

  function HexValue(d: seq<byte>): nat
    requires AllHex(d)
  {
    if d == [] then 0 else HexValue(d[..|d| - 1]) * 16 + HexVal(d[|d| - 1])
  }

  function DigitsEnd(s: seq<byte>, i: nat): (r: nat)
    requires i <= |s|
    ensures i <= r <= |s| && AllHex(s[i..r]) && (r < |s| ==> !HexDigit(s[r]))
    decreases |s| - i
  {
    if i < |s| && HexDigit(s[i]) then
      var r := DigitsEnd(s, i + 1);
      assert s[i..r] == [s[i]] + s[i + 1..r];
      r
    else i
  }

  /** isspace in the C locale */
  predicate White(b: byte) { 9 <= b <= 13 || b == SPACE }

  function SkipWhite(s: seq<byte>, i: nat): (r: nat)
    requires i <= |s|
    ensures i <= r <= |s|
    decreases |s| - i
  {
    if i < |s| && White(s[i]) then SkipWhite(s, i + 1) else i
  }

  predicate At(s: seq<byte>, i: nat, b: byte) { i < |s| && s[i] == b }

  /** The size in a chunk's first line: len after `int len = -1; sscanf(line, "%x", &len)`, when C defines it and
      len + 2 does not overflow. A line without a number leaves the -1. */
  datatype Size = Size(len: int) | Undefined

  function ChunkSize(s: seq<byte>): (r: Size)
    ensures r.Size? ==> -1 <= r.len <= 0x7fff_fffd
  {
    var i := SkipWhite(s, 0);
    var j := if At(s, i, 43) || At(s, i, 45) then i + 1 else i;
    var prefixed := At(s, j, 48) && (At(s, j + 1, 120) || At(s, j + 1, 88));
    var k := if prefixed then j + 2 else j;
    var e := DigitsEnd(s, k);
    if e == k then Size(-1)
    else
      var n := HexValue(s[k..e]);
      if n > 0x7fff_fffd || (n > 0 && At(s, i, 45)) then Undefined else Size(n)
  }

  datatype End = Complete | Broken | OutsideC

  /** One round of a forwarding loop: what it writes, what it leaves, and whether the loop goes on. */
  datatype Round = More(w: seq<byte>, rest: seq<byte>) | Last(w: seq<byte>, rest: seq<byte>)
    | Stop(w: seq<byte>, rest: seq<byte>, end: End)

  /** One chunk: its line, its data and two bytes after the data. */
  function ChunkRound(u: seq<byte>): (r: Round)
    ensures (r.More? ==> |r.rest| < |u|) && (r.Last? ==> r.w != [])
  {
    GetLineGrows(u, [], HTTP_CHUNK_HEADER_MAXLEN);
    var l := GetLine(u, [], HTTP_CHUNK_HEADER_MAXLEN);
    if l.NoLine? || l.text == [] then Stop([], l.rest, Broken)
    else
      var head := l.text + CRLF;
      var size := ChunkSize(head);
      if size.Undefined? then Stop(head, l.rest, OutsideC)
      else if size.len == 0 then Last(head, l.rest)
      else if size.len + 2 > |l.rest| then Stop(head + l.rest, [], Broken)
      else More(head + l.rest[..size.len + 2], l.rest[size.len + 2..])
  }

  /** One trailer line; the empty one is the last. */
  function TrailerRound(u: seq<byte>): (r: Round)
    ensures (r.More? ==> |r.rest| < |u|) && (r.Last? ==> r.w != [])
  {
    GetLineGrows(u, [], HTTP_HEADER_MAXLEN);
    var l := GetLine(u, [], HTTP_HEADER_MAXLEN);
    if l.NoLine? then Stop([], l.rest, Broken)
    else if l.text == [] then Last(CRLF, l.rest)
    else More(l.text + CRLF, l.rest)
  }

  /** All that a transfer writes when nothing stops the output, what it leaves of the stream, and how it ends. */
  datatype Flow = Flow(w: seq<byte>, rest: seq<byte>, end: End)

  function Prefixed(w: seq<byte>, f: Flow): Flow { f.(w := w + f.w) }

  function TrailerFlow(u: seq<byte>): Flow
    decreases |u|
  {
    match TrailerRound(u)
    case More(w, rest) => Prefixed(w, TrailerFlow(rest))
    case Last(w, rest) => Flow(w, rest, Complete)
    case Stop(w, rest, end) => Flow(w, rest, end)
  }

  function ChunkFlow(u: seq<byte>): Flow
    decreases |u|
  {
    match ChunkRound(u)
    case More(w, rest) => Prefixed(w, ChunkFlow(rest))
    case Last(w, rest) => Prefixed(w, TrailerFlow(rest))
    case Stop(w, rest, end) => Flow(w, rest, end)
  }

  /** A chunk as section 4.1 of RFC 7230 has it: its size in hexadecimal, an extension, and its data. */
  datatype Chunk = Chunk(digits: seq<byte>, ext: seq<byte>, data: seq<byte>)

  /** A chunked body: its chunks, the digits and extension of the last chunk, and its trailer lines. */
  datatype Body = Body(chunks: seq<Chunk>, digits: seq<byte>, ext: seq<byte>, trailers: seq<seq<byte>>)

  /** The line of a chunk of the given size, written in hexadecimal, and short enough for the proxy's limit. */
  predicate SizeLine(digits: seq<byte>, ext: seq<byte>, size: nat) {
    0 < |digits| && Spells(digits, size, 16) && size <= 0x7fff_fffd
    && LineBytes(ext) && (ext == [] || ExtStart(ext[0])) && |digits| + |ext| + 1 < HTTP_CHUNK_HEADER_MAXLEN
  }

  /** What ends the digits: the semicolon of an extension, or white space before it. */
  predicate ExtStart(b: byte) { b == 59 || b == SPACE || b == 9 }

  predicate WellFormed(b: Body) {
    (forall i :: 0 <= i < |b.chunks| ==> WellFormedChunk(b.chunks[i]))
    && SizeLine(b.digits, b.ext, 0)
    && (forall i :: 0 <= i < |b.trailers| ==> TrailerLine(b.trailers[i]))
  }

  predicate WellFormedChunk(c: Chunk) { c.data != [] && SizeLine(c.digits, c.ext, |c.data|) }

  predicate TrailerLine(t: seq<byte>) { t != [] && LineBytes(t) && |t| + 1 < HTTP_HEADER_MAXLEN }

  function EncodeTrailers(ts: seq<seq<byte>>): seq<byte> {
    if ts == [] then CRLF else ts[0] + CRLF + EncodeTrailers(ts[1..])
  }

  function EncodeChunk(c: Chunk): seq<byte> { c.digits + c.ext + CRLF + c.data + CRLF }

  /** The bytes of a body. */
  function Encode(b: Body): seq<byte>
    decreases |b.chunks|
  {
    if b.chunks == [] then b.digits + b.ext + CRLF + EncodeTrailers(b.trailers)
    else EncodeChunk(b.chunks[0]) + Encode(b.(chunks := b.chunks[1..]))
  }

  /** The hexadecimal digits and their values are those written down in Numerals. */
  lemma HexDigitIs(b: byte, v: nat)
    requires v < 16
    ensures IsDigitOf(b, v) <==> HexDigit(b) && HexVal(b) == v
  {
    DigitsAre(v);
  }

  lemma HexDigitListed(b: byte)
    ensures HexDigit(b) <==> exists v: nat :: v < 16 && IsDigitOf(b, v)
  {
    if HexDigit(b) { HexDigitIs(b, HexVal(b)); }
    forall v: nat | v < 16 && IsDigitOf(b, v) ensures HexDigit(b) { HexDigitIs(b, v); }
  }

  /** White space: blank, tab, newline, vertical tab, form feed, carriage return. */
  lemma WhiteListed(b: byte)
    ensures White(b) <==> b in [32, 9, 10, 11, 12, 13]
  {
  }

  /** The value that is computed for some digits is the number that they write in base 16, and only that. */
  lemma {:induction false} HexValueIs(d: seq<byte>, n: nat)
    ensures Spells(d, n, 16) <==> AllHex(d) && HexValue(d) == n
    decreases |d|
  {
    if d != [] {
      var front, b := d[..|d| - 1], d[|d| - 1];
      HexValueIs(front, Front(n, 16));
      HexDigitIs(b, n % 16);
      AllHexFront(d);
      if AllHex(d) { LastDigit(HexValue(front), HexVal(b), n, 16); }
    }
  }

  lemma LastDigit(q: nat, r: nat, n: nat, base: nat)
    requires r < base
    ensures q * base + r == n <==> n / base == q && n % base == r
  {
    if q * base + r == n { DivUnique(n, base, q, r); }
  }

  lemma AllHexFront(d: seq<byte>)
    requires d != []
    ensures AllHex(d) <==> AllHex(d[..|d| - 1]) && HexDigit(d[|d| - 1])
  {
  }

  lemma {:induction false} DigitsStop(s: seq<byte>, i: nat, e: nat)
    requires i <= e <= |s| && AllHex(s[i..e]) && (e < |s| ==> !HexDigit(s[e]))
    ensures DigitsEnd(s, i) == e
    decreases e - i
  {
    if i < e {
      assert s[i..e][0] == s[i] && s[i + 1..e] == s[i..e][1..];
      DigitsStop(s, i + 1, e);
    }
  }

  lemma {:induction false} WhiteStop(s: seq<byte>, i: nat, e: nat)
    requires i <= e <= |s| && (forall j :: i <= j < e ==> White(s[j])) && (e < |s| ==> !White(s[e]))
    ensures SkipWhite(s, i) == e
    decreases e - i
  {
    if i < e { WhiteStop(s, i + 1, e); }
  }

  predicate AllWhite(d: seq<byte>) {
    forall i :: 0 <= i < |d| ==> White(d[i])
  }

  /** A line as the `%x` conversion of sscanf takes it apart: white space, a sign, `0x`, hexadecimal digits, the rest. */
  datatype Scan = Scan(white: seq<byte>, sign: seq<byte>, hex: seq<byte>, digits: seq<byte>, tail: seq<byte>)

  function Scanned(c: Scan): seq<byte> { c.white + (c.sign + (c.hex + (c.digits + c.tail))) }

  /** Each part is as long as it can be. */
  predicate IsScan(c: Scan) {
    AllWhite(c.white)
    && (c.sign == [] || c.sign == [43] || c.sign == [45])
    && (c.hex == [] || c.hex == [48, 120] || c.hex == [48, 88])
    && AllHex(c.digits) && (c.tail != [] ==> !HexDigit(c.tail[0]))
    && (c.hex == [] && c.digits == [48] && c.tail != [] ==> c.tail[0] != 120 && c.tail[0] != 88)
    && (c.sign == [] && c.hex == [] && c.digits == [] && c.tail != [] ==>
          !White(c.tail[0]) && c.tail[0] != 43 && c.tail[0] != 45)
  }

  /** Where white space and a sign end, in front of anything else. */
  lemma SignedStart(white: seq<byte>, sign: seq<byte>, rest: seq<byte>)
    requires AllWhite(white) && (sign == [] || sign == [43] || sign == [45])
    requires sign == [] && rest != [] ==> !White(rest[0]) && rest[0] != 43 && rest[0] != 45
    ensures var s := white + (sign + rest);
            SkipWhite(s, 0) == |white| && s[|white|..] == sign + rest && s[|white| + |sign|..] == rest
            && (At(s, |white|, 43) <==> sign == [43]) && (At(s, |white|, 45) <==> sign == [45])
  {
    var s, after := white + (sign + rest), sign + rest;
    assert s[|white|..] == after && s[|white| + |sign|..] == rest;
    assert sign == [] ==> after == rest;
    assert after != [] ==> s[|white|] == after[0] && !White(after[0]);
    WhiteStop(s, 0, |white|);
  }

  lemma Shifted(s: seq<byte>, j: nat, n: nat, b: byte)
    requires j <= |s|
    ensures At(s, j + n, b) <==> At(s[j..], n, b)
  {
  }

  lemma ScanStarts(c: Scan)
    requires IsScan(c)
    ensures SkipWhite(Scanned(c), 0) == |c.white|
    ensures At(Scanned(c), |c.white|, 43) <==> c.sign == [43]
    ensures At(Scanned(c), |c.white|, 45) <==> c.sign == [45]
  {
    hide SkipWhite, At, AllWhite;
    assert c.hex == [] ==> c.hex + (c.digits + c.tail) == c.digits + c.tail;
    SignedStart(c.white, c.sign, c.hex + (c.digits + c.tail));
  }

  lemma ScanPrefix(c: Scan)
    requires IsScan(c)
    ensures var s, j := Scanned(c), |c.white| + |c.sign|;
            At(s, j, 48) && (At(s, j + 1, 120) || At(s, j + 1, 88)) <==> c.hex != []
  {
    hide White, At;
    var s, j := Scanned(c), |c.white| + |c.sign|;
    assert s[j..] == c.hex + (c.digits + c.tail);
    Shifted(s, j, 0, 48);
    Shifted(s, j, 1, 120);
    Shifted(s, j, 1, 88);
    PrefixFirst(c);
  }

  lemma PrefixFirst(c: Scan)
    requires IsScan(c)
    ensures var u := c.hex + (c.digits + c.tail); At(u, 0, 48) && (At(u, 1, 120) || At(u, 1, 88)) <==> c.hex != []
  {
    hide White;
    var u := c.hex + (c.digits + c.tail);
    if c.hex == [] {
      assert u == c.digits + c.tail;
      if |c.digits| == 1 {
        assert u[0] == c.digits[0] && u[1..] == c.tail;
        assert c.digits[0] == 48 ==> c.digits == [48];
      } else if |c.digits| > 1 {
        assert u[1] == c.digits[1] && HexDigit(c.digits[1]);
      }
    } else {
      assert u[0] == c.hex[0] && u[1] == c.hex[1];
    }
  }

  lemma ScanDigits(c: Scan)
    requires IsScan(c)
    ensures var s, k := Scanned(c), |c.white| + |c.sign| + |c.hex|;
            k <= |s| && DigitsEnd(s, k) == k + |c.digits| && s[k..k + |c.digits|] == c.digits
  {
    hide White, DigitsEnd;
    var s, k := Scanned(c), |c.white| + |c.sign| + |c.hex|;
    assert s[k..] == c.digits + c.tail;
    var e := k + |c.digits|;
    assert s[k..e] == c.digits && (e < |s| ==> s[e] == c.tail[0]);
    DigitsStop(s, k, e);
  }

  /** What sscanf reads, for every line: the number that the digits write in base 16; without a number, also after `0x`,
      nothing matches and len keeps its -1. C does not define the outcome for a negative number, and when the number or
      len + 2 is no int. */
  lemma ScanReads(c: Scan, n: nat)
    requires IsScan(c) && Spells(c.digits, n, 16)
    ensures ChunkSize(Scanned(c)) ==
              if c.digits == [] then Size(-1)
              else if n > 0x7fff_fffd || (n > 0 && c.sign == [45]) then Undefined
              else Size(n)
  {
    hide IsScan, Scanned, SkipWhite, DigitsEnd, At, AllHex, HexValue, Spells;
    ScanStarts(c);
    ScanPrefix(c);
    ScanDigits(c);
    ScanLengths(c);
    HexValueIs(c.digits, n);
  }

  lemma ScanLengths(c: Scan)
    requires IsScan(c)
    ensures |c.sign| == (if c.sign == [43] || c.sign == [45] then 1 else 0) && |c.hex| == (if c.hex == [] then 0 else 2)
  {
  }

  /** And each line is of that form. */
  lemma ScanSplits(s: seq<byte>) returns (c: Scan, n: nat)
    ensures IsScan(c) && Scanned(c) == s && Spells(c.digits, n, 16)
  {
    hide DigitsEnd, SkipWhite, White, AllWhite, AllHex, HexDigit, HexValue, Spells;
    var i := SkipWhite(s, 0);
    FirstWhite(s);
    var j := if At(s, i, 43) || At(s, i, 45) then i + 1 else i;
    var k := if At(s, j, 48) && (At(s, j + 1, 120) || At(s, j + 1, 88)) then j + 2 else j;
    var e := DigitsEnd(s, k);
    c := Scan(s[..i], s[i..j], s[j..k], s[k..e], s[e..]);
    n := HexValue(c.digits);
    FiveParts(s, i, j, k, e);
    Singles(s, i, j, k, e);
    HexValueIs(c.digits, n);
  }

  lemma FirstWhite(s: seq<byte>)
    ensures AllWhite(s[..SkipWhite(s, 0)]) && (SkipWhite(s, 0) < |s| ==> !White(s[SkipWhite(s, 0)]))
  {
    SkippedWhite(s, 0);
  }

  /** What the short pieces are, and what comes first in the last one. */
  lemma Singles(s: seq<byte>, i: nat, j: nat, k: nat, e: nat)
    requires i <= j <= k <= e <= |s|
    ensures j == i ==> s[i..j] == []
    ensures j == i + 1 ==> s[i..j] == [s[i]]
    ensures k == j ==> s[j..k] == []
    ensures k == j + 2 ==> s[j..k] == [s[j], s[j + 1]]
    ensures s[k..e] == [48] ==> e == k + 1 && s[k] == 48
    ensures e < |s| ==> s[e..][0] == s[e]
  {
    if s[k..e] == [48] { assert |s[k..e]| == e - k && s[k..e][0] == s[k]; }
  }

  lemma FiveParts(s: seq<byte>, i: nat, j: nat, k: nat, e: nat)
    requires i <= j <= k <= e <= |s|
    ensures s[..i] + (s[i..j] + (s[j..k] + (s[k..e] + s[e..]))) == s
  {
  }

  lemma {:induction false} SkippedWhite(s: seq<byte>, i: nat)
    requires i <= |s|
    ensures var e := SkipWhite(s, i); (forall j :: i <= j < e ==> White(s[j])) && (e < |s| ==> !White(s[e]))
    decreases |s| - i
  {
    if i < |s| && White(s[i]) { SkippedWhite(s, i + 1); }
  }

  /** The numeral of a number, with any leading zeros and in either case, is read as that number, whatever follows that is
      no digit and does not make it a `0x`. */
  lemma NumeralRead(zeros: nat, n: nat, upper: bool, tail: seq<byte>)
    requires n <= 0x7fff_fffd && (tail != [] ==> !HexDigit(tail[0]) && tail[0] != 120 && tail[0] != 88)
    ensures ChunkSize(Zeros(zeros) + Numeral(n, 16, upper) + tail) == Size(n)
  {
    hide ChunkSize, Numeral, Spells, HexDigit, AllHex, HexValue;
    var d := Zeros(zeros) + Numeral(n, 16, upper);
    NumeralSpells(n, 16, upper);
    ZerosSpell(zeros, Numeral(n, 16, upper), n, 16);
    HexValueIs(d, n);
    var c := Scan([], [], [], d, tail);
    assert [] + (d + tail) == d + tail;
    ScanReads(c, n);
  }

  /** sscanf reads the size of a well-formed line. */
  lemma SizeOfLine(digits: seq<byte>, ext: seq<byte>, size: nat)
    requires SizeLine(digits, ext, size)
    ensures ChunkSize(digits + ext + CRLF) == Size(size) && LineBytes(digits + ext)
  {
    var s := digits + ext + CRLF;
    HexValueIs(digits, size);
    assert s[0] == digits[0] && HexDigit(digits[0]);
    assert s[..|digits|] == digits;
    DigitsStop(s, 0, |digits|);
    if |digits| > 1 { assert s[1] == digits[1] && HexDigit(digits[1]); }
    forall i | 0 <= i < |digits + ext| ensures (digits + ext)[i] != CR && (digits + ext)[i] != LF && (digits + ext)[i] != 255 {
      if i < |digits| { assert HexDigit(digits[i]); } else { assert (digits + ext)[i] == ext[i - |digits|]; }
    }
  }

  lemma ChunkForwarded(c: Chunk, rest: seq<byte>)
    requires WellFormedChunk(c)
    ensures ChunkRound(EncodeChunk(c) + rest) == More(EncodeChunk(c), rest)
  {
    hide GetLine, ChunkSize;
    var line, after := c.digits + c.ext, c.data + CRLF + rest;
    SizeOfLine(c.digits, c.ext, |c.data|);
    assert EncodeChunk(c) + rest == line + CRLF + after;
    GetLineCRLF(line, after, [], HTTP_CHUNK_HEADER_MAXLEN);
    assert [] + line == line;
    var n := |c.data| + 2;
    assert after[..n] == c.data + CRLF && after[n..] == rest;
    assert EncodeChunk(c) == line + CRLF + (c.data + CRLF);
  }

  lemma LastForwarded(digits: seq<byte>, ext: seq<byte>, rest: seq<byte>)
    requires SizeLine(digits, ext, 0)
    ensures ChunkRound(digits + ext + CRLF + rest) == Last(digits + ext + CRLF, rest)
  {
    hide GetLine, ChunkSize;
    SizeOfLine(digits, ext, 0);
    GetLineCRLF(digits + ext, rest, [], HTTP_CHUNK_HEADER_MAXLEN);
    assert [] + (digits + ext) == digits + ext;
  }

  lemma {:induction false} TrailersForwarded(ts: seq<seq<byte>>, rest: seq<byte>)
    requires forall i :: 0 <= i < |ts| ==> TrailerLine(ts[i])
    ensures TrailerFlow(EncodeTrailers(ts) + rest) == Flow(EncodeTrailers(ts), rest, Complete)
    decreases |ts|
  {
    hide GetLine;
    var u := EncodeTrailers(ts) + rest;
    if ts == [] {
      GetLineCRLF([], rest, [], HTTP_HEADER_MAXLEN);
      assert [] + CRLF + rest == u;
    } else {
      var after := EncodeTrailers(ts[1..]) + rest;
      assert u == ts[0] + CRLF + after;
      GetLineCRLF(ts[0], after, [], HTTP_HEADER_MAXLEN);
      assert [] + ts[0] == ts[0];
      TrailersForwarded(ts[1..], rest);
    }
  }

  /** Byte-exact forwarding: a well-formed body is written as it is, and what follows it is left unread. */
  lemma {:induction false} BodyForwarded(b: Body, rest: seq<byte>)
    requires WellFormed(b)
    ensures ChunkFlow(Encode(b) + rest) == Flow(Encode(b), rest, Complete)
    decreases |b.chunks|
  {
    hide ChunkRound, EncodeChunk, SizeLine, WellFormedChunk, TrailerLine;
    var u := Encode(b) + rest;
    if b.chunks == [] {
      var line, after := b.digits + b.ext + CRLF, EncodeTrailers(b.trailers);
      assert u == line + (after + rest);
      LastForwarded(b.digits, b.ext, after + rest);
      TrailersForwarded(b.trailers, rest);
    } else {
      var b' := b.(chunks := b.chunks[1..]);
      var c := EncodeChunk(b.chunks[0]);
      assert u == c + (Encode(b') + rest);
      ChunkForwarded(b.chunks[0], Encode(b') + rest);
      BodyForwarded(b', rest);
    }
  }

  /** The first line of u, which is read whole, ends in CRLF. */
  predicate CrlfLine(u: seq<byte>, limit: int) {
    var l := GetLine(u, [], limit);
    u == l.text + CRLF + l.rest
  }

  predicate CrlfTrailers(u: seq<byte>)
    decreases |u|
  {
    CrlfLine(u, HTTP_HEADER_MAXLEN) && (TrailerRound(u).More? ==> CrlfTrailers(TrailerRound(u).rest))
  }

  /** Every line that the transfer reads ends in CRLF. */
  predicate CrlfBody(u: seq<byte>)
    decreases |u|
  {
    CrlfLine(u, HTTP_CHUNK_HEADER_MAXLEN)
    && (ChunkRound(u).More? ==> CrlfBody(ChunkRound(u).rest))
    && (ChunkRound(u).Last? ==> CrlfTrailers(ChunkRound(u).rest))
  }

  /** A line is written with CRLF whatever its end was. */
  lemma LineRewritten(u: seq<byte>, limit: int)
    requires GetLine(u, [], limit).Line?
    ensures var l := GetLine(u, [], limit);
            |l.text + CRLF + l.rest| >= |u| && (|l.text + CRLF + l.rest| == |u| ==> CrlfLine(u, limit))
  {
    hide GetLine;
    GetLineInverse(u, [], limit);
    var l := GetLine(u, [], limit);
    assert l.text[0..] == l.text;
  }

  /** One step of the next two lemmas: exact here and exact after is exact. */
  lemma ExactStep(u: seq<byte>, w: seq<byte>, rest: seq<byte>, f: Flow)
    requires |w + rest| >= |u| && (|w + rest| == |u| ==> w + rest == u) && |f.w + f.rest| >= |rest|
    ensures |w + f.w + f.rest| >= |u|
    ensures w + f.w + f.rest == u <==> w + rest == u && f.w + f.rest == rest
  {
    assert w + f.w + f.rest == w + (f.w + f.rest);
    if w + f.w + f.rest == u {
      assert |w + rest| == |u|;
      assert u[|w|..] == rest && (w + (f.w + f.rest))[|w|..] == f.w + f.rest;
    }
  }

  lemma {:induction false} TrailersExact(u: seq<byte>)
    requires TrailerFlow(u).end == Complete
    ensures var f := TrailerFlow(u); |f.w + f.rest| >= |u| && (f.w + f.rest == u <==> CrlfTrailers(u))
    decreases |u|
  {
    hide GetLine;
    LineRewritten(u, HTTP_HEADER_MAXLEN);
    var r := TrailerRound(u);
    if r.More? {
      TrailersExact(r.rest);
      ExactStep(u, r.w, r.rest, TrailerFlow(r.rest));
    }
  }

  /** Exactly when a transfer is byte-exact: a complete one forwards what it consumed if and only if every line in it
      ended in CRLF. */
  lemma {:induction false} BodyExact(u: seq<byte>)
    requires ChunkFlow(u).end == Complete
    ensures var f := ChunkFlow(u); |f.w + f.rest| >= |u| && (f.w + f.rest == u <==> CrlfBody(u))
    decreases |u|
  {
    hide GetLine, ChunkSize;
    var l, r := GetLine(u, [], HTTP_CHUNK_HEADER_MAXLEN), ChunkRound(u);
    LineRewritten(u, HTTP_CHUNK_HEADER_MAXLEN);
    HeadAndData(u);
    if r.More? {
      BodyExact(r.rest);
      ExactStep(u, r.w, r.rest, ChunkFlow(r.rest));
    } else {
      TrailersExact(r.rest);
      ExactStep(u, r.w, r.rest, TrailerFlow(r.rest));
    }
  }

  lemma HeadAndData(u: seq<byte>)
    requires !ChunkRound(u).Stop?
    ensures var l, r := GetLine(u, [], HTTP_CHUNK_HEADER_MAXLEN), ChunkRound(u);
            l.Line? && r.w + r.rest == l.text + CRLF + l.rest
  {
    hide GetLine, ChunkSize;
  }

  /** Other line ends are consumed too, and are not kept: a body whose last chunk has a line ended by LF alone is
      forwarded whole and one byte longer. */
  lemma LoneLfRewritten(digits: seq<byte>, ext: seq<byte>, ts: seq<seq<byte>>, rest: seq<byte>)
    requires SizeLine(digits, ext, 0) && forall i :: 0 <= i < |ts| ==> TrailerLine(ts[i])
    ensures var u := digits + ext + [LF] + (EncodeTrailers(ts) + rest);
            ChunkFlow(u) == Flow(digits + ext + CRLF + EncodeTrailers(ts), rest, Complete) && !CrlfBody(u)
  {
    hide ChunkRound, TrailerFlow, EncodeTrailers, TrailerLine, SizeLine, CrlfBody;
    var after := EncodeTrailers(ts) + rest;
    LfLine(digits, ext, after);
    TrailersForwarded(ts, rest);
    BodyExact(digits + ext + [LF] + after);
    OneLonger(digits + ext, EncodeTrailers(ts), rest);
  }

  lemma LfLine(digits: seq<byte>, ext: seq<byte>, after: seq<byte>)
    requires SizeLine(digits, ext, 0)
    ensures ChunkRound(digits + ext + [LF] + after) == Last(digits + ext + CRLF, after)
  {
    hide GetLine, ChunkSize;
    SizeOfLine(digits, ext, 0);
    GetLineLoneEnd(digits + ext, after, [], HTTP_CHUNK_HEADER_MAXLEN);
    assert [] + (digits + ext) == digits + ext;
  }

  lemma OneLonger(line: seq<byte>, w: seq<byte>, rest: seq<byte>)
    ensures |line + CRLF + w + rest| == |line + [LF] + (w + rest)| + 1
  {
  }

  // ---- Bodies that are cut short

  lemma TrailerMore(u: seq<byte>, more: seq<byte>)
    ensures var r := TrailerRound(u);
            (r.Stop? && r.end == Broken) || TrailerRound(u + more) == r.(rest := r.rest + more)
  {
    hide GetLine;
    GetLineMore(u, more, [], HTTP_HEADER_MAXLEN);
  }

  lemma ChunkMore(u: seq<byte>, more: seq<byte>)
    ensures var r := ChunkRound(u);
            (r.Stop? && r.end == Broken) || ChunkRound(u + more) == r.(rest := r.rest + more)
  {
    hide GetLine, ChunkSize;
    GetLineMore(u, more, [], HTTP_CHUNK_HEADER_MAXLEN);
    var l := GetLine(u, [], HTTP_CHUNK_HEADER_MAXLEN);
    if l.Line? && l.text != [] {
      var size := ChunkSize(l.text + CRLF);
      if size.Size? && size.len != 0 && size.len + 2 <= |l.rest| {
        var n := size.len + 2;
        assert (l.rest + more)[..n] == l.rest[..n] && (l.rest + more)[n..] == l.rest[n..] + more;
      }
    }
  }

  lemma {:induction false} TrailerFlowMore(u: seq<byte>, more: seq<byte>)
    ensures var f := TrailerFlow(u); f.end == Broken || TrailerFlow(u + more) == f.(rest := f.rest + more)
    decreases |u|
  {
    hide TrailerRound;
    TrailerMore(u, more);
    if TrailerRound(u).More? { TrailerFlowMore(TrailerRound(u).rest, more); }
  }

  /** What a transfer writes and how it ends does not depend on what follows the body, unless it broke off. */
  lemma {:induction false} ChunkFlowMore(u: seq<byte>, more: seq<byte>)
    ensures var f := ChunkFlow(u); f.end == Broken || ChunkFlow(u + more) == f.(rest := f.rest + more)
    decreases |u|
  {
    hide ChunkRound, TrailerFlow;
    ChunkMore(u, more);
    if ChunkRound(u).More? { ChunkFlowMore(ChunkRound(u).rest, more); }
    if ChunkRound(u).Last? { TrailerFlowMore(ChunkRound(u).rest, more); }
  }

  /** A body that is transferred whole fails when it is cut short anywhere: in a chunk line, in the data or in the
      trailers. */
  lemma BodyCutShort(body: seq<byte>, u: seq<byte>)
    requires ChunkFlow(body).end == Complete && ChunkFlow(body).rest == [] && u < body
    ensures ChunkFlow(u).end == Broken
  {
    hide ChunkFlow;
    var more := body[|u|..];
    assert u + more == body && more != [];
    ChunkFlowMore(u, more);
  }

  /** A chunk line that is missing, empty or too long ends the transfer, with nothing written for it. */
  lemma NoChunkLine(u: seq<byte>)
    requires forall t, rest :: t != [] && LineBytes(t) && |t| + 1 < HTTP_CHUNK_HEADER_MAXLEN ==> !EndsLine(u, t, rest)
    ensures var r := ChunkRound(u); r.Stop? && r.end == Broken && r.w == []
  {
    hide GetLine, ChunkSize, EndsLine, LineBytes;
    if GetLine(u, [], HTTP_CHUNK_HEADER_MAXLEN).Line? { LineIs(u, HTTP_CHUNK_HEADER_MAXLEN); }
  }

  /** A trailer line that is missing or too long likewise. */
  lemma NoTrailerLine(u: seq<byte>)
    requires forall t, rest :: LineBytes(t) && |t| + 1 < HTTP_HEADER_MAXLEN ==> !EndsLine(u, t, rest)
    ensures var r := TrailerRound(u); r.Stop? && r.end == Broken && r.w == []
  {
    hide GetLine, EndsLine, LineBytes;
    if GetLine(u, [], HTTP_HEADER_MAXLEN).Line? { LineIs(u, HTTP_HEADER_MAXLEN); }
  }

  lemma LineIs(u: seq<byte>, limit: nat)
    requires 0 < limit && GetLine(u, [], limit).Line?
    ensures var l := GetLine(u, [], limit); LineBytes(l.text) && |l.text| + 1 < limit && EndsLine(u, l.text, l.rest)
  {
    hide GetLine;
    GetLineInverse(u, [], limit);
    GetLineBound(u, [], limit);
    assert GetLine(u, [], limit).text[0..] == GetLine(u, [], limit).text;
  }

  /** A chunk line without a number passes for a size of -1: the line goes out, and one byte after it. */
  lemma NoNumber(line: seq<byte>, c: Scan, rest: seq<byte>)
    requires line != [] && LineBytes(line) && |line| + 1 < HTTP_CHUNK_HEADER_MAXLEN
    requires IsScan(c) && c.digits == [] && Scanned(c) == line + CRLF
    ensures ChunkRound(line + CRLF + rest) ==
              if rest == [] then Stop(line + CRLF, [], Broken) else More(line + CRLF + rest[..1], rest[1..])
  {
    hide GetLine, ChunkSize, IsScan, Scanned;
    GetLineCRLF(line, rest, [], HTTP_CHUNK_HEADER_MAXLEN);
    assert [] + line == line && line + CRLF + [] == line + CRLF;
    ScanReads(c, 0);
  }
}
