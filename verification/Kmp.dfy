/** The Knuth-Morris-Pratt searches of uthash/utstring.h, forward and backward. */
module Kmp {
  import opened Bytes

  ghost predicate OccursAt(hay: seq<byte>, needle: seq<byte>, k: int) {
    0 <= k <= |hay| - |needle| && hay[k..k + |needle|] == needle
  }

  /** r is the least position of an occurrence lying inside hay[lo..hi], or -1 when there is none. */
  ghost predicate IsFirst(hay: seq<byte>, needle: seq<byte>, lo: int, hi: int, r: int) {
    if r == -1 then
      forall k :: lo <= k <= hi - |needle| ==> !OccursAt(hay, needle, k)
    else
      lo <= r <= hi - |needle| && OccursAt(hay, needle, r)
      && forall k :: lo <= k < r ==> !OccursAt(hay, needle, k)
  }

  /** r is the greatest position of an occurrence lying inside hay[..hi], or -1 when there is none. */
  ghost predicate IsLast(hay: seq<byte>, needle: seq<byte>, hi: int, r: int) {
    if r == -1 then
      forall k :: 0 <= k <= hi - |needle| ==> !OccursAt(hay, needle, k)
    else
      0 <= r <= hi - |needle| && OccursAt(hay, needle, r)
      && forall k :: r < k <= hi - |needle| ==> !OccursAt(hay, needle, k)
  }

  // ---------- Borders ----------

  /** p[..b] is a proper prefix of p[..i] that is also a suffix of it. */
  ghost predicate Border(p: seq<byte>, i: int, b: int) {
    0 <= b < i <= |p| && p[..b] == p[i - b..i]
  }

  /** b is the longest border of p[..i] (-1 for the empty prefix). */
  ghost predicate Longest(p: seq<byte>, i: int, b: int) {
    -1 <= b < i <= |p| && (b >= 0 ==> Border(p, i, b))
    && forall c :: b < c < i ==> !Border(p, i, c)
  }

  /** b is the longest border of p[..i] whose next character differs from p[i] (-1 if none). */
  ghost predicate Strong(p: seq<byte>, i: int, b: int) {
    -1 <= b < i < |p| && (b >= 0 ==> Border(p, i, b) && p[b] != p[i])
    && forall c :: b < c < i && Border(p, i, c) ==> p[c] == p[i]
  }

  /** The failure table of a needle: strong entries, and the longest border of the whole needle at the end. */
  ghost predicate IsTable(p: seq<byte>, t: seq<int>) {
    |t| == |p| + 1 && Longest(p, |p|, t[|p|]) && Rows(p, t, |p|)
  }

  /** The first n entries are in place. */
  ghost predicate Rows(p: seq<byte>, t: seq<int>, n: int) {
    n <= |t| && forall k :: 0 <= k < n ==> Strong(p, k, t[k])
  }

  lemma RowStore(p: seq<byte>, t: seq<int>, n: int, entry: int)
    requires Rows(p, t, n) && 0 <= n < |t| && Strong(p, n, entry)
    ensures Rows(p, t[n := entry], n + 1)
  {
  }

  /** The backward table is the forward table of the reversed needle q, with indices counted from the end. */
  ghost predicate IsTableR(q: seq<byte>, t: seq<int>) {
    RowsR(q, t, 0) && Longest(q, |q|, |q| - 1 - t[0])
  }

  /** The entries from index lo on are in place. */
  ghost predicate RowsR(q: seq<byte>, t: seq<int>, lo: int) {
    |t| == |q| + 1 && forall x :: lo <= x <= |q| && 0 < x ==> StrongR(q, x, t[x])
  }

  /** The entry t at index x of a backward table. */
  ghost predicate StrongR(q: seq<byte>, x: int, t: int) {
    Strong(q, |q| - x, |q| - 1 - t)
  }

  /** The two tables are determined by the needle, so the predicates specify the builders completely. */
  lemma TableUnique(p: seq<byte>, t: seq<int>, u: seq<int>)
    requires IsTable(p, t) && IsTable(p, u)
    ensures t == u
  {
    forall k | 0 <= k <= |p| ensures t[k] == u[k] {
      if k < |p| { assert Strong(p, k, t[k]) && Strong(p, k, u[k]); }
    }
  }

  /** The table itself, by search: the greatest candidate below c for entry i, and for the last entry. */
  ghost function StrongBelow(p: seq<byte>, i: nat, c: nat): (b: int)
    requires c <= i < |p|
    ensures -1 <= b < c && (b >= 0 ==> Border(p, i, b) && p[b] != p[i])
    ensures forall d :: b < d < c && Border(p, i, d) ==> p[d] == p[i]
  {
    if c == 0 then -1
    else if Border(p, i, c - 1) && p[c - 1] != p[i] then c - 1
    else StrongBelow(p, i, c - 1)
  }

  ghost function LongestBelow(p: seq<byte>, c: nat): (b: int)
    requires c <= |p|
    ensures -1 <= b < c && (b >= 0 ==> Border(p, |p|, b))
    ensures forall d :: b < d < c ==> !Border(p, |p|, d)
  {
    if c == 0 then -1 else if Border(p, |p|, c - 1) then c - 1 else LongestBelow(p, c - 1)
  }

  ghost function TableOf(p: seq<byte>): (t: seq<int>)
    ensures IsTable(p, t)
  {
    hide Border;
    seq(|p| + 1, i requires 0 <= i <= |p| => if i < |p| then StrongBelow(p, i, i) else LongestBelow(p, i))
  }

  lemma BorderOfBorder(p: seq<byte>, i: int, b: int, c: int)
    requires Border(p, i, b) && 0 <= c < b
    ensures Border(p, i, c) <==> Border(p, b, c)
  {
    assert p[b - c..b] == p[..b][b - c..] == p[i - b..i][b - c..] == p[i - c..i];
  }

  lemma BorderExtend(p: seq<byte>, i: int, c: int)
    requires 0 <= c < i < |p|
    ensures Border(p, i + 1, c + 1) <==> Border(p, i, c) && p[c] == p[i]
  {
    assert p[..c + 1] == p[..c] + [p[c]];
    assert p[i - c..i + 1] == p[i - c..i] + [p[i]];
  }

  /** One step of the inner loop of the table builder: from a border to the next shorter candidate. */
  lemma NextBorder(p: seq<byte>, i: int, j: int, b: int)
    requires 0 <= j < i < |p| && Border(p, i, j) && p[i] != p[j] && Strong(p, j, b)
    requires forall c :: j < c < i && Border(p, i, c) ==> p[c] != p[i]
    ensures b >= 0 ==> Border(p, i, b)
    ensures forall c :: b < c < i && Border(p, i, c) ==> p[c] != p[i]
  {
    if b >= 0 { BorderOfBorder(p, i, j, b); }
    forall c | b < c < i && Border(p, i, c) ensures p[c] != p[i] {
      if c < j { BorderOfBorder(p, i, j, c); }
    }
  }

  /** The candidate on which the inner loop stops gives the longest border one position further. */
  lemma LongestExtend(p: seq<byte>, i: int, j: int)
    requires -1 <= j < i < |p|
    requires j >= 0 ==> Border(p, i, j) && p[i] == p[j]
    requires forall c :: j < c < i && Border(p, i, c) ==> p[c] != p[i]
    ensures Longest(p, i + 1, j + 1)
  {
    if j >= 0 { BorderExtend(p, i, j); }
    forall c {:trigger Border(p, i + 1, c)} | j + 1 < c < i + 1 ensures !Border(p, i + 1, c) {
      BorderExtend(p, i, c - 1);
    }
  }

  /** Collapsing an entry when the next characters agree turns the longest border into a strong one. */
  lemma Collapse(p: seq<byte>, i: int, j: int, b: int)
    requires 0 <= j < i < |p| && Longest(p, i, j)
    requires if p[i] == p[j] then Strong(p, j, b) else b == j
    ensures Strong(p, i, b)
  {
    if p[i] == p[j] {
      if b >= 0 { BorderOfBorder(p, i, j, b); }
      forall c | b < c < i && Border(p, i, c) ensures p[c] == p[i] {
        if c < j { BorderOfBorder(p, i, j, c); }
      }
    }
  }

  /** The entries of a table are below their index, so that following them ends. */
  ghost predicate Falls(t: seq<int>) {
    t != [] && forall k :: 0 <= k < |t| - 1 ==> -1 <= t[k] < k
  }

  /** The character comparisons that building the table still makes at needle index i with candidate j. */
  ghost function Comparisons(p: seq<byte>, t: seq<int>, i: nat, j: int): nat
    requires |t| == |p| + 1 && Falls(t) && i <= |p| && -1 <= j < i + 1 && j <= i
    requires j < i || i == |p|
    decreases |p| - i, j + 1
  {
    if i == |p| then 0
    else if j >= 0 && p[i] != p[j] then 1 + Comparisons(p, t, i, t[j])
    else (if j >= 0 then 1 else 0) + (if i + 1 < |p| then 1 else 0) + Comparisons(p, t, i + 1, j + 1)
  }

  lemma TableFalls(p: seq<byte>, t: seq<int>)
    requires IsTable(p, t)
    ensures Falls(t)
  {
    hide Border;
    forall k | 0 <= k < |t| - 1 ensures -1 <= t[k] < k { assert Strong(p, k, t[k]); }
  }

  lemma StrongUnique(p: seq<byte>, i: int, b: int, c: int)
    requires Strong(p, i, b) && Strong(p, i, c)
    ensures b == c
  {
    hide Border;
  }

  /** What the inner loop keeps. */
  ghost predicate Candidate(p: seq<byte>, i: int, j: int) {
    -1 <= j < i < |p| && (j >= 0 ==> Border(p, i, j)) && forall c :: j < c < i && Border(p, i, c) ==> p[c] != p[i]
  }

  lemma FirstCandidate(p: seq<byte>, i: int, j: int)
    requires Longest(p, i, j) && i < |p|
    ensures Candidate(p, i, j)
  {
    hide Border;
  }

  lemma NextCandidate(p: seq<byte>, i: int, j: int, b: int)
    requires Candidate(p, i, j) && j >= 0 && p[i] != p[j] && Strong(p, j, b)
    ensures Candidate(p, i, b) && b < j
  {
    hide Border;
    NextBorder(p, i, j, b);
  }

  /** The inner loop of _utstring_BuildTable: from the longest border to the candidate that can be extended. */
  method Retreat(p: seq<byte>, table: array<int>, i: nat, j0: int, ghost t: seq<int>) returns (j: int, ghost n: nat)
    requires table.Length == |p| + 1 && IsTable(p, t) && Falls(t) && i < |p| && Longest(p, i, j0)
    requires Rows(p, table[..], i + 1)
    ensures -1 <= j <= j0 < i && Candidate(p, i, j) && (j >= 0 ==> p[i] == p[j]) && n <= j0 - j
    ensures Comparisons(p, t, i, j0) == n + Comparisons(p, t, i, j)
  {
    FirstCandidate(p, i, j0);
    hide Longest, Candidate, Strong;
    j, n := j0, 0;
    while j > -1 && p[i] != p[j]
      invariant Candidate(p, i, j) && -1 <= j <= j0 < i && n <= j0 - j
      invariant Comparisons(p, t, i, j0) == n + Comparisons(p, t, i, j)
      decreases j
    {
      assert Strong(p, j, table[..][j]) && Strong(p, j, t[j]);
      StrongUnique(p, j, table[j], t[j]);
      NextCandidate(p, i, j, table[j]);
      n := n + 1;
      j := table[j];
    }
  }

  /** The candidate that the inner loop stops at, one position on. */
  lemma Extended(p: seq<byte>, t: seq<int>, i: nat, j: int)
    requires Candidate(p, i, j) && (j >= 0 ==> p[i] == p[j]) && |t| == |p| + 1 && Falls(t)
    ensures Longest(p, i + 1, j + 1)
    ensures Comparisons(p, t, i, j)
         == (if j >= 0 then 1 else 0) + (if i + 1 < |p| then 1 else 0) + Comparisons(p, t, i + 1, j + 1)
  {
    hide Border;
    LongestExtend(p, i, j);
  }

  /** The rest of the loop's body: the entry is stored, collapsed when the next characters agree. */
  method StoreEntry(p: seq<byte>, table: array<int>, i: nat, j: nat)
    requires table.Length == |p| + 1 && 0 < i && Longest(p, i, j) && Rows(p, table[..], i)
    modifies table
    ensures Rows(p, table[..], Min(i + 1, |p|)) && (i == |p| ==> table[i] == j)
  {
    hide Border, Strong;
    ghost var before := table[..];
    if i < |p| {
      assert Strong(p, j, before[j]);
      Collapse(p, i, j, if p[i] == p[j] then before[j] else j);
      RowStore(p, before, i, if p[i] == p[j] then before[j] else j);
      if p[i] == p[j] {
        table[i] := table[j];
      } else {
        table[i] := j;
      }
    } else {
      table[i] := j;
    }
  }

  /** _utstring_BuildTable. `inner` counts the character comparisons of the inner loop, `compares` all of them. */
  method BuildTable(p: seq<byte>, table: array<int>) returns (ghost inner: nat, ghost compares: nat)
    requires table.Length == |p| + 1
    modifies table
    ensures IsTable(p, table[..])
    ensures if p == [] then inner == compares == 0 else inner < 2 * |p| && compares == inner + |p| - 1
    ensures Falls(TableOf(p)) && compares == Comparisons(p, TableOf(p), 0, -1)
  {
    hide Border, Strong, Candidate, TableOf, Comparisons, Rows, Longest, Falls;
    ghost var t := TableOf(p);
    TableFalls(p, t);
    var i, j := 0, -1;
    table[i] := j;
    inner, compares := 0, 0;
    FirstRow(p, table[..]);
    while i < |p|
      invariant 0 <= i <= |p| && -1 <= j < i && Longest(p, i, j)
      invariant Rows(p, table[..], Min(i + 1, |p|))
      invariant i == |p| ==> table[i] == j
      invariant inner <= 2 * i - j - 1 && compares == inner + Max(Min(i, |p| - 1), 0) && (i > 0 ==> j >= 0)
      invariant compares + Comparisons(p, t, i, j) == Comparisons(p, t, 0, -1)
    {
      ghost var n;
      j, n := Retreat(p, table, i, j, t);
      Extended(p, t, i, j);
      inner := inner + n + if j > -1 then 1 else 0;
      compares := compares + n + (if j > -1 then 1 else 0) + if i + 1 < |p| then 1 else 0;
      i := i + 1;
      j := j + 1;
      StoreEntry(p, table, i, j);
    }
    NoneLeft(p, t, j);
  }

  lemma NoneLeft(p: seq<byte>, t: seq<int>, j: int)
    requires |t| == |p| + 1 && Falls(t) && -1 <= j <= |p|
    ensures Comparisons(p, t, |p|, j) == 0
  {
  }

  lemma FirstRow(p: seq<byte>, t: seq<int>)
    requires |t| == |p| + 1 && t[0] == -1
    ensures Longest(p, 0, -1) && Rows(p, t, Min(1, |p|))
  {
  }

  /** The bound of 2n is that of the inner loop. With the n - 1 tests of the entries there are more when that loop makes more
      than n + 1 comparisons: the needle abaaaa takes 13 in all. */
  lemma MoreThanTwice()
    ensures var p := [97, 98, 97, 97, 97, 97];
            Falls(TableOf(p)) && Comparisons(p, TableOf(p), 0, -1) == 13 > 2 * |p|
  {
  }

  // ---------- Searching ----------

  /** The i characters of hay before position j are the first i of the needle. */
  ghost predicate Matched(hay: seq<byte>, p: seq<byte>, i: int, j: int) {
    0 <= i <= |p| && i <= j <= |hay| && p[..i] == hay[j - i..j]
  }

  ghost predicate NoneBefore(hay: seq<byte>, p: seq<byte>, n: int) {
    forall k :: 0 <= k < n ==> !OccursAt(hay, p, k)
  }

  /** An occurrence starting inside the matched window makes the rest of the window a border. */
  lemma WindowBorder(hay: seq<byte>, p: seq<byte>, i: int, j: int, k: int)
    requires Matched(hay, p, i, j) && i < |p| && j < |hay|
    requires OccursAt(hay, p, k) && j - i <= k <= j
    ensures p[j - k] == hay[j]
    ensures k > j - i ==> Border(p, i, j - k)
  {
    var c := j - k;
    assert hay[k..k + |p|][c] == hay[j];
    assert p[..c] == hay[k..k + |p|][..c] == hay[k..j];
    assert hay[k..j] == hay[j - i..j][i - c..] == p[..i][i - c..] == p[i - c..i];
  }

  /** On a mismatch at needle index i, no occurrence starts before the position the table moves to. */
  lemma Shift(hay: seq<byte>, p: seq<byte>, i: int, j: int, b: int)
    requires Matched(hay, p, i, j) && i < |p| && j < |hay| && p[i] != hay[j]
    requires NoneBefore(hay, p, j - i) && Strong(p, i, b)
    ensures -1 <= b < i && NoneBefore(hay, p, j - b)
    ensures b >= 0 ==> Matched(hay, p, b, j)
  {
    if b >= 0 {
      assert hay[j - b..j] == hay[j - i..j][i - b..] == p[..i][i - b..] == p[i - b..i];
    }
    forall k | 0 <= k < j - b ensures !OccursAt(hay, p, k) {
      if k >= j - i && OccursAt(hay, p, k) {
        WindowBorder(hay, p, i, j, k);
      }
    }
  }

  lemma MatchedExtend(hay: seq<byte>, p: seq<byte>, i: int, j: int)
    requires Matched(hay, p, i, j) && i < |p| && j < |hay| && p[i] == hay[j]
    ensures Matched(hay, p, i + 1, j + 1)
  {
    assert p[..i + 1] == p[..i] + [p[i]];
    assert hay[j - i..j + 1] == hay[j - i..j] + [hay[j]];
  }

  /** How much of a haystack of the given length the forward search looks at, after its cast to `int`. */
  function Visible(len: nat): (r: nat)
    ensures r <= len
    ensures len < 0x8000_0000 ==> r == len
  {
    Max(AsInt(len), 0)
  }

  /** What _utstring_find returns, for the visible part h of a haystack of hayLen bytes. The cast of the needle length
      decides how many characters are compared: when it is not positive, the first one alone. */
  ghost predicate Finds(h: seq<byte>, hayLen: nat, needle: seq<byte>, r: int)
    requires needle != []
  {
    var m := AsInt(|needle|);
    if m > 0 then IsFirst(h, needle[..m], 0, Min(|h|, hayLen - |needle| + m), r)
    else r == if h == [] || hayLen < |needle| then -1 else if needle[0] == h[0] then 0 else 1
  }

  /** The search is exact on what it sees when either length is below 2^31. */
  lemma FindsExact(h: seq<byte>, hayLen: nat, needle: seq<byte>, r: int)
    requires needle != [] && |h| <= hayLen
    ensures |needle| < 0x8000_0000 || hayLen < 0x8000_0000 ==>
              (Finds(h, hayLen, needle, r) <==> IsFirst(h, needle, 0, |h|, r))
  {
    if |needle| < 0x8000_0000 {
      assert needle[..|needle|] == needle;
    }
  }

  /** The characters of the needle that a search compares. */
  function Compared(needle: seq<byte>): (q: seq<byte>)
    requires needle != []
    ensures q != [] && q <= needle && |q| == Max(AsInt(|needle|), 1)
  {
    needle[..Max(AsInt(|needle|), 1)]
  }

  lemma StrongPrefix(p: seq<byte>, q: seq<byte>, k: int, b: int)
    requires q <= p && k < |q| && Strong(p, k, b)
    ensures Strong(q, k, b)
  {
    assert q == p[..|q|];
    forall c | 0 <= c < k ensures Border(q, k, c) <==> Border(p, k, c) {
      assert q[..c] == p[..c] && q[k - c..k] == p[k - c..k];
    }
  }

  /** What the loops of the search keep: q matches before position j, and occurs nowhere before its window. */
  ghost predicate Window(h: seq<byte>, q: seq<byte>, i: int, j: int) {
    -1 <= i < |q| && (i >= 0 ==> Matched(h, q, i, j)) && NoneBefore(h, q, j - i)
  }

  lemma ShiftWindow(h: seq<byte>, q: seq<byte>, p: seq<byte>, i: int, j: int, b: int)
    requires Window(h, q, i, j) && 0 <= i && j < |h| && q[i] != h[j] && q <= p && Strong(p, i, b)
    ensures Window(h, q, b, j) && -1 <= b < i
  {
    hide Strong, Matched, NoneBefore;
    StrongPrefix(p, q, i, b);
    Shift(h, q, i, j, b);
  }

  /** The inner loop of _utstring_find. */
  method FallBack(hay: seq<byte>, needle: seq<byte>, table: array<int>, i0: nat, j: nat, ghost h: seq<byte>, ghost q: seq<byte>)
    returns (i: int, ghost n: nat)
    requires IsTable(needle, table[..]) && h <= hay && q <= needle && j < |h| && i0 < |q| && Window(h, q, i0, j)
    ensures -1 <= i <= i0 && n <= i0 - i && Window(h, q, i, j) && (i >= 0 ==> q[i] == h[j])
  {
    hide Window, Strong, Longest;
    i, n := i0, 0;
    while i > -1 && needle[i] != hay[j]
      invariant -1 <= i <= i0 && n <= i0 - i && Window(h, q, i, j)
      decreases i
    {
      assert Strong(needle, i, table[..][i]);
      ShiftWindow(h, q, needle, i, j, table[i]);
      n := n + 1;
      i := table[i];
    }
  }

  /** One character further. */
  lemma WindowGrows(h: seq<byte>, q: seq<byte>, i: int, j: nat)
    requires Window(h, q, i, j) && j < |h| && (i >= 0 ==> q[i] == h[j])
    ensures i + 1 < |q| ==> Window(h, q, i + 1, j + 1)
    ensures i + 1 == |q| ==> OccursAt(h, q, j - i) && NoneBefore(h, q, j - i)
  {
    hide NoneBefore;
    if i >= 0 {
      MatchedExtend(h, q, i, j);
      if i + 1 == |q| { assert q[..i + 1] == q; }
    }
  }

  lemma WindowStart(h: seq<byte>, q: seq<byte>)
    requires q != []
    ensures Window(h, q, 0, 0)
  {
  }

  /** The search ends with nothing found when the haystack is used up, or too short for what is left of the needle. */
  lemma NothingFound(h: seq<byte>, hayLen: nat, needle: seq<byte>, i: nat, j: nat)
    requires needle != [] && Window(h, Compared(needle), i, j) && (AsInt(|needle|) <= 0 ==> i == j == 0)
    requires j >= |h| || hayLen - j + i < |needle|
    ensures Finds(h, hayLen, needle, -1)
  {
  }

  lemma SomethingFound(h: seq<byte>, hayLen: nat, needle: seq<byte>, i: int, j: nat)
    requires needle != [] && Window(h, Compared(needle), i, j) && (AsInt(|needle|) <= 0 ==> j == 0)
    requires j < |h| && (i >= 0 ==> Compared(needle)[i] == h[j]) && i + 1 >= AsInt(|needle|)
    requires i > 0 || AsInt(|needle|) == 1 ==> hayLen - j + i >= |needle|
    requires AsInt(|needle|) <= 0 ==> hayLen >= |needle|
    ensures Finds(h, hayLen, needle, j - i)
  {
    var q := Compared(needle);
    WindowGrows(h, q, i, j);
    if AsInt(|needle|) <= 0 && i == -1 {
      assert !OccursAt(h, q, 0);
      assert h[0..1] == [h[0]];
    }
  }

  /** What the loop of the search keeps. */
  ghost predicate Searching(h: seq<byte>, needle: seq<byte>, i: int, j: int, compares: int)
    requires needle != []
  {
    0 <= i < |Compared(needle)| && 0 <= j <= |h| && Window(h, Compared(needle), i, j)
    && (AsInt(|needle|) <= 0 ==> i == j == 0) && compares <= 2 * j - i
  }

  lemma SearchStarts(h: seq<byte>, needle: seq<byte>)
    requires needle != []
    ensures Searching(h, needle, 0, 0, 0)
  {
    WindowStart(h, Compared(needle));
  }

  /** One round: the inner loop falls back from i to i', and the window grows by one character. */
  lemma SearchStep(h: seq<byte>, hayLen: nat, needle: seq<byte>, i: nat, j: nat, compares: int, i': int, n: nat)
    requires needle != [] && Searching(h, needle, i, j, compares) && j < |h| && hayLen - j + i >= |needle|
    requires -1 <= i' <= i && n <= i - i' && Window(h, Compared(needle), i', j)
    requires i' >= 0 ==> Compared(needle)[i'] == h[j]
    ensures compares + n + (if i' > -1 then 1 else 0) <= 2 * (j + 1) - (i' + 1)
    ensures i' + 1 < AsInt(|needle|) ==>
              Searching(h, needle, i' + 1, j + 1, compares + n + if i' > -1 then 1 else 0)
    ensures i' + 1 >= AsInt(|needle|) ==> Finds(h, hayLen, needle, j - i')
  {
    hide Window, AsInt, Finds;
    WindowGrows(h, Compared(needle), i', j);
    if i' + 1 >= AsInt(|needle|) { SomethingFound(h, hayLen, needle, i', j); }
  }

  lemma SearchEnds(h: seq<byte>, hayLen: nat, needle: seq<byte>, i: nat, j: nat, compares: int)
    requires needle != [] && Searching(h, needle, i, j, compares) && (j >= |h| || hayLen - j + i < |needle|)
    ensures Finds(h, hayLen, needle, -1) && compares <= 2 * |h|
  {
    hide Window, AsInt, Finds;
    NothingFound(h, hayLen, needle, i, j);
  }

  /** _utstring_find, on the hayLen bytes at the start of hay, of which it sees h. */
  method FindFrom(hay: seq<byte>, hayLen: nat, needle: seq<byte>, table: array<int>, ghost h: seq<byte>)
    returns (found: int, ghost compares: nat)
    requires 0 < |needle| && h <= hay && |h| == Visible(hayLen)
    requires IsTable(needle, table[..])
    ensures Finds(h, hayLen, needle, found)
    ensures |needle| < 0x8000_0000 || hayLen < 0x8000_0000 ==> IsFirst(h, needle, 0, |h|, found)
    ensures compares <= 2 * |h|
  {
    hide Window, IsTable, Finds, IsFirst, AsInt, Compared;
    var i, j := 0, 0;
    found := -1;
    compares := 0;
    SearchStarts(h, needle);
    while j < AsInt(hayLen) && (hayLen - j) + i >= |needle|
      invariant Searching(h, needle, i, j, compares) && found == -1
      decreases |h| - j
    {
      ghost var i0 := i;
      ghost var n;
      i, n := FallBack(hay, needle, table, i, j, h, Compared(needle));
      SearchStep(h, hayLen, needle, i0, j, compares, i, n);
      compares := compares + n + if i > -1 then 1 else 0;
      i := i + 1;
      j := j + 1;
      if i >= AsInt(|needle|) {
        found := j - i;
        FindsExact(h, hayLen, needle, found);
        return;
      }
    }
    SearchEnds(h, hayLen, needle, i, j, compares);
    FindsExact(h, hayLen, needle, -1);
  }

  /** The result of utstring_find from position `from` of s. */
  ghost predicate FindsFrom(s: seq<byte>, from: nat, needle: seq<byte>, found: int)
    requires needle != []
  {
    if from > |s| || |s| - from < |needle| then found == -1
    else
      var h := s[from..][..Visible(|s| - from)];
      (found == -1 || found >= from) && Finds(h, |s| - from, needle, if found == -1 then -1 else found - from)
  }

  lemma FindsFromExact(s: seq<byte>, from: nat, needle: seq<byte>, found: int)
    requires needle != [] && FindsFrom(s, from, needle, found)
    ensures |needle| < 0x8000_0000 || |s| - from < 0x8000_0000 ==>
              IsFirst(s, needle, from, Min(from, |s|) + Visible(Max(|s| - from, 0)), found)
  {
    if from <= |s| && |s| - from >= |needle| && (|needle| < 0x8000_0000 || |s| - from < 0x8000_0000) {
      var hi := from + Visible(|s| - from);
      var h := s[from..][..hi - from];
      hide Finds;
      FindsExact(h, |s| - from, needle, if found == -1 then -1 else found - from);
      WindowOccurrences(s, needle, from, hi);
      hide OccursAt;
    }
  }

  /** utstring_find: search s from a start position, negative positions counting from the end. */
  method Find(s: seq<byte>, start: int, needle: seq<byte>) returns (found: int)
    requires |s| < 0x8000_0000_0000_0000
    requires -|s| <= start <= |s| + 0x8000_0000
    ensures needle == [] ==> found == -1
    ensures needle != [] ==> FindsFrom(s, if start < 0 then |s| + start else start, needle, found)
    ensures var from := if start < 0 then |s| + start else start;
            0 < |needle| < 0x8000_0000 || (needle != [] && |s| - from < 0x8000_0000) ==>
              IsFirst(s, needle, from, Min(from, |s|) + Visible(Max(|s| - from, 0)), found)
  {
    found := -1;
    var from := if start < 0 then |s| + start else start;
    var hayLen := |s| - from;
    if AsSize(hayLen) >= |needle| && |needle| > 0 {
      found := FindTail(s, from, needle);
    }
    if needle != [] { FindsFromExact(s, from, needle, found); }
  }

  /** The branch of utstring_find that searches. */
  method FindTail(s: seq<byte>, from: nat, needle: seq<byte>) returns (found: int)
    requires |s| < 0x8000_0000_0000_0000 && from <= |s| + 0x8000_0000
    requires needle != [] && AsSize(|s| - from) >= |needle|
    ensures FindsFrom(s, from, needle, found)
  {
    var hayLen := |s| - from;
    var table := new int[|needle| + 1];
    ghost var _, _ := BuildTable(needle, table);
    ghost var compares;
    hide IsTable, IsFirst, Finds, TableOf, Comparisons, Falls;
    if hayLen < 0 {
      // Past the end: the length wraps to a huge size_t whose cast to int is negative.
      found, compares := FindFrom([], AsSize(hayLen), needle, table, []);
      NothingVisible(AsSize(hayLen), needle, found);
      return;
    }
    found, compares := FindFrom(s[from..], hayLen, needle, table, s[from..][..Visible(hayLen)]);
    FindsRange(s[from..][..Visible(hayLen)], hayLen, needle, found);
    if found >= 0 {
      found := found + from;
    }
  }

  lemma NothingVisible(hayLen: nat, needle: seq<byte>, r: int)
    requires needle != [] && Finds([], hayLen, needle, r)
    ensures r == -1
  {
  }

  lemma FindsRange(h: seq<byte>, hayLen: nat, needle: seq<byte>, r: int)
    requires needle != [] && Finds(h, hayLen, needle, r)
    ensures r >= -1
  {
  }

  lemma WindowOccurrences(s: seq<byte>, needle: seq<byte>, lo: int, hi: int)
    requires 0 <= lo <= hi <= |s|
    ensures forall k :: lo <= k <= hi - |needle| ==>
      (OccursAt(s, needle, k) <==> OccursAt(s[lo..][..hi - lo], needle, k - lo))
  {
    forall k | lo <= k <= hi - |needle|
      ensures OccursAt(s, needle, k) <==> OccursAt(s[lo..][..hi - lo], needle, k - lo)
    {
      assert s[lo..][..hi - lo][k - lo..k - lo + |needle|] == s[k..k + |needle|];
    }
  }

  // ---------- Backward ----------

  lemma NextBorderR(q: seq<byte>, a: int, b: int, j: int, entry: int)
    requires b == |q| - 1 - j && 0 <= b < a < |q| && Border(q, a, b) && q[a] != q[b] && StrongR(q, j + 1, entry)
    requires forall c :: b < c < a && Border(q, a, c) ==> q[c] != q[a]
    ensures -1 <= |q| - 1 - entry < b
    ensures |q| - 1 - entry >= 0 ==> Border(q, a, |q| - 1 - entry)
    ensures forall c :: |q| - 1 - entry < c < a && Border(q, a, c) ==> q[c] != q[a]
  {
    NextBorder(q, a, b, |q| - 1 - entry);
  }

  lemma CollapseR(q: seq<byte>, a: int, b: int, i: int, j: int, entry: int)
    requires a == |q| - 1 - i && b == |q| - 1 - j && 0 <= b < a < |q| && Longest(q, a, b)
    requires StrongR(q, j + 1, entry)
    ensures q[a] == q[b] ==> StrongR(q, i + 1, entry)
    ensures q[a] != q[b] ==> StrongR(q, i + 1, j)
  {
    Collapse(q, a, b, if q[a] == q[b] then |q| - 1 - entry else b);
  }

  lemma RowsStore(q: seq<byte>, t: seq<int>, lo: int, entry: int)
    requires RowsR(q, t, lo) && 1 < lo <= |q| && StrongR(q, lo - 1, entry)
    ensures RowsR(q, t[lo - 1 := entry], lo - 1)
  {
  }

  lemma FirstRowR(q: seq<byte>)
    requires q != []
    ensures StrongR(q, |q|, |q|)
  {
  }

  /** _utstring_BuildTableR. The ghost indices a and b are i and j counted from the end of the needle. */
  method BuildTableR(p: seq<byte>, ghost q: seq<byte>, table: array<int>)
    returns (ghost inner: nat, ghost compares: nat)
    requires 0 < |p| && table.Length == |p| + 1 && IsReverse(p, q)
    modifies table
    ensures IsTableR(q, table[..])
    ensures inner < 2 * |p| && compares == inner + |p| - 1
  {
    hide Border, Strong;
    ghost var m := |p|;
    ghost var a, b := 0, -1;
    inner, compares := 0, 0;
    var i, j := |p| - 1, |p|;
    table[i + 1] := j;
    FirstRowR(q);
    while i >= 0
      invariant a == m - 1 - i && b == m - 1 - j
      invariant 0 <= a <= m && Longest(q, a, b)
      invariant RowsR(q, table[..], i + 1)
      invariant i == -1 ==> table[0] == j
      invariant inner <= 2 * a - b - 1 && compares == inner + Min(a, m - 1) && (a > 0 ==> b >= 0)
    {
      while j < |p| && p[i] != p[j]
        invariant b == m - 1 - j && -1 <= b < a && (b >= 0 ==> Border(q, a, b))
        invariant forall c :: b < c < a && Border(q, a, c) ==> q[c] != q[a]
        invariant RowsR(q, table[..], i + 1)
        invariant inner <= 2 * a - b - 1 && compares == inner + a
        decreases b
      {
        assert Mirrored(p, q, i) && Mirrored(p, q, j) && StrongR(q, j + 1, table[j + 1]);
        NextBorderR(q, a, b, j, table[j + 1]);
        inner, compares := inner + 1, compares + 1;
        j := table[j + 1];
        b := m - 1 - j;
      }
      if j < |p| {
        inner, compares := inner + 1, compares + 1;
        assert Mirrored(p, q, i) && Mirrored(p, q, j);
      }
      LongestExtend(q, a, b);
      i, a := i - 1, a + 1;
      j, b := j - 1, b + 1;
      assert Longest(q, a, b);
      if i >= 0 {
        compares := compares + 1;
        assert Mirrored(p, q, i) && Mirrored(p, q, j);
        assert StrongR(q, j + 1, table[j + 1]);
        CollapseR(q, a, b, i, j, table[j + 1]);
        RowsStore(q, table[..], i + 2, if p[i] == p[j] then table[j + 1] else j);
        if p[i] == p[j] {
          table[i + 1] := table[j + 1];
        } else {
          table[i + 1] := j;
        }
      } else {
        table[i + 1] := j;
      }
    }
  }

  lemma ReverseInjective(s: seq<byte>, r: seq<byte>, p: seq<byte>, q: seq<byte>)
    requires IsReverse(s, r) && IsReverse(p, q) && |s| == |p|
    ensures s == p <==> r == q
  {
    if s == p {
      forall y | 0 <= y < |q| ensures r[y] == q[y] {
        assert Mirrored(s, r, |q| - 1 - y) && Mirrored(p, q, |q| - 1 - y);
      }
    }
    if r == q {
      forall y | 0 <= y < |p| ensures s[y] == p[y] {
        assert Mirrored(s, r, y) && Mirrored(p, q, y);
      }
    }
  }

  lemma OccursReversed(h: seq<byte>, g: seq<byte>, p: seq<byte>, q: seq<byte>, k: int)
    requires IsReverse(h, g) && IsReverse(p, q)
    ensures OccursAt(h, p, k) <==> OccursAt(g, q, |h| - |p| - k)
  {
    if 0 <= k <= |h| - |p| {
      var x := |h| - |p| - k;
      assert IsReverse(h[k..k + |p|], g[x..x + |p|]) by {
        forall y {:trigger Mirrored(h[k..k + |p|], g[x..x + |p|], y)} | 0 <= y < |p|
          ensures Mirrored(h[k..k + |p|], g[x..x + |p|], y)
        {
          assert Mirrored(h, g, k + y);
        }
      }
      ReverseInjective(h[k..k + |p|], g[x..x + |p|], p, q);
    }
  }

  /** What the backward loop knows about the reversed strings, said of the strings themselves. */
  lemma LastFromReversed(hay: seq<byte>, hayLen: nat, g: seq<byte>, needle: seq<byte>, q: seq<byte>, n: int, found: int)
    requires hayLen <= |hay| && IsReverse(hay[..hayLen], g) && IsReverse(needle, q)
    requires NoneBefore(g, q, n)
    requires if found == -1 then n > hayLen - |needle|
             else 0 <= n == hayLen - |needle| - found && found >= 0 && OccursAt(g, q, n)
    ensures IsLast(hay, needle, hayLen, found)
  {
    var h := hay[..hayLen];
    forall k | hayLen - |needle| - n < k <= hayLen - |needle| ensures !OccursAt(h, needle, k) {
      OccursReversed(h, g, needle, q, k);
    }
    OccursReversed(h, g, needle, q, found);
    WindowOccurrences(hay, needle, 0, hayLen);
    assert hay[0..][..hayLen] == h;
  }

  lemma ShiftR(g: seq<byte>, q: seq<byte>, a: int, b: int, i: int, entry: int)
    requires a == |q| - 1 - i && Window(g, q, a, b) && 0 <= a && b < |g| && q[a] != g[b] && StrongR(q, i + 1, entry)
    ensures -1 <= |q| - 1 - entry < a && Window(g, q, |q| - 1 - entry, b)
  {
    hide Strong;
    ShiftWindow(g, q, q, a, b, |q| - 1 - entry);
  }

  /** The characters that the search compares agree with the haystack in the first alignment. */
  ghost predicate Aligned(hay: seq<byte>, hayLen: int, needle: seq<byte>)
    requires |needle| <= hayLen <= |hay|
  {
    forall k :: 0 <= k < AsInt(|needle|) ==> needle[k] == hay[hayLen - |needle| + k]
  }

  /** What _utstring_findR returns. The cast of the needle length makes it skip the comparison of characters from that
      index on: a needle that is not shorter than 2^31 bytes is found in the first alignment unless one of the characters
      before that index differs there. */
  ghost predicate FindsR(hay: seq<byte>, hayLen: int, needle: seq<byte>, r: int)
    requires hayLen <= |hay|
  {
    if |needle| < 0x8000_0000 || hayLen < |needle| then IsLast(hay, needle, hayLen, r)
    else Aligned(hay, hayLen, needle) ==> r == hayLen - |needle|
  }

  /** The inner loop of _utstring_findR. The ghost sequences are the reversed strings. */
  method FallBackR(hay: seq<byte>, needle: seq<byte>, table: array<int>, i0: nat, j: nat,
                   ghost hayLen: nat, ghost g: seq<byte>, ghost q: seq<byte>)
    returns (i: int, ghost n: nat)
    requires IsTableR(q, table[..]) && i0 < |needle| && j < hayLen <= |hay|
    requires WindowR(hay, hayLen, g, needle, q, i0, j)
    ensures i0 <= i <= |needle| && n <= i - i0 && WindowR(hay, hayLen, g, needle, q, i, j)
    ensures |needle| < 0x8000_0000 && i < |needle| ==> needle[i] == hay[j]
  {
    hide WindowR, Strong, Longest;
    i, n := i0, 0;
    SameLength(hay, hayLen, g, needle, q, i, j);
    while i < AsInt(|needle|) && needle[i] != hay[j]
      invariant i0 <= i <= |needle| && n <= i - i0 && WindowR(hay, hayLen, g, needle, q, i, j)
      decreases |needle| - i
    {
      assert StrongR(q, i + 1, table[..][i + 1]);
      MismatchR(hay, hayLen, g, needle, q, i, j, table[i + 1]);
      n := n + 1;
      i := table[i + 1];
    }
  }

  lemma SameLength(hay: seq<byte>, hayLen: nat, g: seq<byte>, needle: seq<byte>, q: seq<byte>, i: int, j: int)
    requires hayLen <= |hay| && WindowR(hay, hayLen, g, needle, q, i, j)
    ensures |q| == |needle|
  {
  }

  /** A mismatch moves the window to the entry of the table. */
  lemma MismatchR(hay: seq<byte>, hayLen: nat, g: seq<byte>, needle: seq<byte>, q: seq<byte>, i: nat, j: nat, entry: int)
    requires hayLen <= |hay| && WindowR(hay, hayLen, g, needle, q, i, j) && |q| == |needle|
    requires i < |needle| && i < AsInt(|needle|) && needle[i] != hay[j] && StrongR(q, i + 1, entry)
    ensures i < entry <= |needle| && WindowR(hay, hayLen, g, needle, q, entry, j)
  {
    hide Strong;
    assert i < entry <= |needle| by { EntryR(q, i + 1, entry); }
    hide Window;
    if |needle| < 0x8000_0000 {
      assert Mirrored(hay[..hayLen], g, j) && Mirrored(needle, q, i);
      ShiftR(g, q, |q| - 1 - i, hayLen - 1 - j, i, entry);
    }
  }

  lemma EntryR(q: seq<byte>, x: int, t: int)
    requires StrongR(q, x, t)
    ensures x <= t <= |q|
  {
  }

  /** What the outer loop of _utstring_findR keeps, at needle index i and position j. */
  ghost predicate WindowR(hay: seq<byte>, hayLen: nat, g: seq<byte>, needle: seq<byte>, q: seq<byte>, i: int, j: int)
    requires hayLen <= |hay|
  {
    IsReverse(hay[..hayLen], g) && IsReverse(needle, q) && -1 <= j < hayLen && i <= |needle| && j - i <= hayLen - |needle|
    && (|needle| < 0x8000_0000 ==> Window(g, q, |needle| - 1 - i, hayLen - 1 - j))
    && (|needle| >= 0x8000_0000 && hayLen >= |needle| && Aligned(hay, hayLen, needle) ==> i == j - (hayLen - |needle|))
  }

  /** The reversed search cannot find the needle any more. */
  lemma NothingFoundR(hay: seq<byte>, hayLen: nat, g: seq<byte>, needle: seq<byte>, q: seq<byte>, i: nat, j: int)
    requires hayLen <= |hay| && WindowR(hay, hayLen, g, needle, q, i, j) && i < |needle|
    requires j < 0 || j < i
    ensures FindsR(hay, hayLen, needle, -1)
  {
    hide OccursAt;
    if |needle| < 0x8000_0000 {
      var a, b := |needle| - 1 - i, hayLen - 1 - j;
      LastFromReversed(hay, hayLen, g, needle, q, b - a, -1);
    } else {
      TooShort(hay, hayLen, needle);
    }
  }

  /** A round of the outer loop, after the inner one: one character further, or the needle is found. */
  lemma RoundR(hay: seq<byte>, hayLen: nat, g: seq<byte>, needle: seq<byte>, q: seq<byte>, i: nat, j: nat)
    requires hayLen <= |hay| && WindowR(hay, hayLen, g, needle, q, i, j) && needle != [] && hayLen >= |needle|
    requires |needle| < 0x8000_0000 && i < |needle| ==> needle[i] == hay[j]
    ensures i > 0 ==> WindowR(hay, hayLen, g, needle, q, i - 1, j - 1)
    ensures i == 0 ==> FindsR(hay, hayLen, needle, j)
  {
    hide OccursAt;
    if |needle| < 0x8000_0000 {
      var a, b := |needle| - 1 - i, hayLen - 1 - j;
      assert Mirrored(hay[..hayLen], g, j);
      if i < |needle| { assert Mirrored(needle, q, i); }
      WindowGrows(g, q, a, b);
      if i == 0 { LastFromReversed(hay, hayLen, g, needle, q, b - a, j); }
    }
  }

  lemma TooShort(hay: seq<byte>, hayLen: int, needle: seq<byte>)
    ensures hayLen < |needle| ==> IsLast(hay, needle, hayLen, -1)
  {
  }

  /** _utstring_findR, on the hayLen bytes at the start of hay. */
  method FindFromR(hay: seq<byte>, hayLen: int, needle: seq<byte>, ghost q: seq<byte>, table: array<int>)
    returns (found: int, ghost compares: nat)
    requires 0 < |needle| && hayLen <= |hay| && IsReverse(needle, q)
    requires IsTableR(q, table[..])
    ensures |needle| < 0x8000_0000 ==> IsLast(hay, needle, hayLen, found)
    ensures FindsR(hay, hayLen, needle, found)
    ensures compares <= 2 * Max(hayLen, 0)
  {
    compares := 0;
    var j, i := hayLen - 1, |needle| - 1;
    found := -1;
    TooShort(hay, hayLen, needle);
    if j < 0 { return; }   // the loop below is not entered
    ghost var g := MakeReverse(hay[..hayLen]);
    WindowStart(g, q);
    hide IsTableR, IsLast, IsReverse, AsInt, Window, Aligned;
    assert WindowR(hay, hayLen, g, needle, q, i, j);
    hide WindowR, FindsR;
    while j >= 0 && j >= i
      invariant 0 <= i < |needle| && -1 <= j < hayLen && j - i <= hayLen - |needle|
      invariant WindowR(hay, hayLen, g, needle, q, i, j)
      invariant found == -1 && compares <= 2 * (hayLen - 1 - j) - (|needle| - 1 - i)
      decreases j
    {
      ghost var n;
      i, n := FallBackR(hay, needle, table, i, j, hayLen, g, q);
      compares := compares + n + if i < AsInt(|needle|) then 1 else 0;
      RoundR(hay, hayLen, g, needle, q, i, j);
      i := i - 1;
      j := j - 1;
      if i < 0 {
        found := j + 1;
        ShortIsLast(hay, hayLen, needle, found);
        return;
      }
    }
    NothingFoundR(hay, hayLen, g, needle, q, i, j);
    ShortIsLast(hay, hayLen, needle, -1);
  }

  lemma ShortIsLast(hay: seq<byte>, hayLen: nat, needle: seq<byte>, r: int)
    requires hayLen <= |hay|
    ensures |needle| < 0x8000_0000 && FindsR(hay, hayLen, needle, r) ==> IsLast(hay, needle, hayLen, r)
  {
  }

  /** utstring_findR: the last occurrence that ends at or before a position, negative counting from the end. */
  method FindR(s: seq<byte>, start: int, needle: seq<byte>) returns (found: int)
    requires |s| < 0x4000_0000_0000_0000
    requires -0x4000_0000_0000_0000 <= start < |s|
    ensures needle == [] ==> found == -1
    ensures 0 < |needle| < 0x8000_0000 ==>
              IsLast(s, needle, (if start < 0 then |s| + start else start) + 1, found)
    ensures needle != [] && (if start < 0 then |s| + start else start) >= -1 ==>
              FindsR(s, (if start < 0 then |s| + start else start) + 1, needle, found)
  {
    found := -1;
    var upto := if start < 0 then |s| + start else start;
    var hayLen := upto + 1;
    if AsSize(hayLen) >= |needle| && |needle| > 0 {
      var table := new int[|needle| + 1];
      ghost var q := MakeReverse(needle);
      ghost var _, compares := BuildTableR(needle, q, table);
      hide IsTableR;
      found, compares := FindFromR(s, hayLen, needle, q, table);
    }
  }

  // ---------- The casts of the lengths ----------

  /** Every forward search result on a haystack of this length is exact. */
  ghost predicate ExactAt(len: nat) {
    forall hay: seq<byte>, needle: seq<byte>, r ::
      |hay| == len && needle != [] && Finds(hay[..Visible(len)], len, needle, r) ==> IsFirst(hay, needle, 0, len, r)
  }

  /** The forward search is exact for every needle exactly on haystacks shorter than 2^31 bytes. */
  lemma ExactIff(len: nat)
    ensures ExactAt(len) <==> len < 0x8000_0000
  {
    if len >= 0x8000_0000 {
      var hay: seq<byte> := seq(len, k => if k == len - 1 then 1 else 0);
      var needle: seq<byte> := [1];
      forall k | 0 <= k < len ensures OccursAt(hay, needle, k) <==> k == len - 1 {
        assert hay[k..k + 1][0] == hay[k];
      }
      var h := hay[..Visible(len)];
      forall k | 0 <= k <= |h| - 1 ensures !OccursAt(h, needle, k) {
        assert h[k..k + 1][0] == hay[k];
      }
      FindsExact(h, len, needle, -1);
      assert Finds(h, len, needle, -1);
      assert OccursAt(hay, needle, len - 1);
      assert !IsFirst(hay, needle, 0, len, -1);
    } else {
      forall hay: seq<byte>, needle: seq<byte>, r
        | |hay| == len && needle != [] && Finds(hay[..Visible(len)], len, needle, r)
        ensures IsFirst(hay, needle, 0, len, r)
      {
        assert hay[..Visible(len)] == hay;
        FindsExact(hay, len, needle, r);
      }
    }
  }

  /** Every backward search result for a needle of this length is exact. */
  ghost predicate ExactAtR(n: nat) {
    forall hay: seq<byte>, needle: seq<byte>, r ::
      |needle| == n && FindsR(hay, |hay|, needle, r) ==> IsLast(hay, needle, |hay|, r)
  }

  /** The backward search is exact on every haystack exactly for needles shorter than 2^31 bytes. */
  lemma ExactIffR(n: nat)
    ensures ExactAtR(n) <==> n < 0x8000_0000
  {
    if n >= 0x8000_0000 {
      var needle: seq<byte> := seq(n, _ => 0);
      var hay: seq<byte> := seq(n, k => if k == n - 1 then 1 else 0);
      assert Aligned(hay, n, needle);
      assert FindsR(hay, n, needle, 0);
      assert hay[0..n][n - 1] == 1 && needle[n - 1] == 0;
      assert !OccursAt(hay, needle, 0);
      assert !IsLast(hay, needle, n, 0);
    }
  }
}
