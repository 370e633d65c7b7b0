/** Bytes, C integer widths and small facts about sequences shared by the other modules. */
module Bytes {
  type byte = b: int | 0 <= b < 256

  const CR: byte := 13
  const LF: byte := 10
  const NUL: byte := 0
  const CRLF: seq<byte> := [CR, LF]

  /** The value of a byte read through a plain (signed) `char`. */
  function AsChar(b: byte): (c: int)
    ensures -128 <= c < 128 && (b - c) % 256 == 0
  {
    if b < 128 then b else b - 256
  }

  /** The byte stored when an int read through a `char` is appended. */
  function FromChar(c: int): (b: byte)
    requires -128 <= c < 128
    ensures AsChar(b) == c
  {
    if c < 0 then c + 256 else c
  }

  /** The conversion of a `size_t` to a 32-bit `int`. */
  function AsInt(n: nat): (r: int)
    ensures r <= n
    ensures -0x8000_0000 <= r < 0x8000_0000 && (n - r) % 0x1_0000_0000 == 0
    ensures n < 0x8000_0000 ==> r == n
  {
    var low := n % 0x1_0000_0000;
    if low < 0x8000_0000 then low else low - 0x1_0000_0000
  }

  /** The conversion of a `long` to `size_t`. */
  function AsSize(n: int): (r: nat)
    requires -0x8000_0000_0000_0000 <= n < 0x8000_0000_0000_0000
    ensures r < 0x1_0000_0000_0000_0000 && (r - n) % 0x1_0000_0000_0000_0000 == 0
  {
    if n < 0 then n + 0x1_0000_0000_0000_0000 else n
  }

  function Min(a: int, b: int): int { if a < b then a else b }

  function Max(a: int, b: int): int { if a < b then b else a }

  /** The first n elements, or all of them when there are fewer. */
  function Take<T>(s: seq<T>, n: nat): (r: seq<T>)
    ensures |r| == Min(|s|, n) && r <= s
  {
    if n < |s| then s[..n] else s
  }

  /** Taking and dropping in two steps. */
  lemma TwoSteps<T>(a: seq<T>, d: nat, n: nat)
    requires d + n <= |a|
    ensures a[..d + n] == a[..d] + a[d..][..n] && a[d..][n..] == a[d + n..]
  {
  }

  /** A piece of a piece. */
  lemma Window<T>(s: seq<T>, off: nat, len: nat, k: nat, n: nat)
    requires off + len <= |s| && k + n <= len
    ensures s[off..off + len][k..][..n] == s[off + k..off + k + n]
  {
  }

  /** s without its element at index k. */
  ghost function Without<T>(s: seq<T>, k: nat): seq<T>
    requires k < |s|
  {
    s[..k] + s[k + 1..]
  }

  lemma WithoutAt<T>(s: seq<T>, k: nat)
    requires k < |s|
    ensures |Without(s, k)| == |s| - 1
    ensures forall i :: 0 <= i < |s| - 1 ==> Without(s, k)[i] == if i < k then s[i] else s[i + 1]
  {
  }

  /** r is s read backwards. */
  ghost predicate IsReverse<T>(s: seq<T>, r: seq<T>) {
    |r| == |s| && forall k :: 0 <= k < |s| ==> Mirrored(s, r, k)
  }

  ghost predicate Mirrored<T>(s: seq<T>, r: seq<T>, k: int)
    requires |r| == |s| && 0 <= k < |s|
  {
    s[k] == r[|s| - 1 - k]
  }

  lemma MakeReverse<T>(s: seq<T>) returns (r: seq<T>)
    ensures IsReverse(s, r) && |r| == |s|
  {
    r := seq(|s|, k requires 0 <= k < |s| => s[|s| - 1 - k]);
  }
}
