/** The bitwise operations of uthash.h on non-negative integers, and the arithmetic they stand for. */
module Bits {

  function Pow2(k: nat): (r: nat)
    ensures r > 0
  {
    if k == 0 then 1 else 2 * Pow2(k - 1)
  }

  /** x & y */
  function And(x: nat, y: nat): nat {
    if x == 0 || y == 0 then 0
    else 2 * And(x / 2, y / 2) + (x % 2) * (y % 2)
  }

  /** x >> k */
  function Shr(x: nat, k: nat): nat {
    if k == 0 then x else Shr(x / 2, k - 1)
  }

  /** Masking with 2^k - 1 is the remainder modulo 2^k. */
  lemma {:induction false} MaskIsMod(x: nat, k: nat)
    ensures And(x, Pow2(k) - 1) == x % Pow2(k)
  {
    if x != 0 && k != 0 {
      var m := Pow2(k - 1);
      MaskIsMod(x / 2, k - 1);
      assert (2 * m - 1) / 2 == m - 1 && (2 * m - 1) % 2 == 1;
      DoubleMod(x, m);
    }
  }

  lemma DoubleMod(x: nat, m: nat)
    requires m > 0
    ensures x % (2 * m) == 2 * ((x / 2) % m) + x % 2
    ensures x / (2 * m) == (x / 2) / m
  {
    var q, r := (x / 2) / m, (x / 2) % m;
    assert x / 2 == q * m + r;
    DivUnique(x, 2 * m, q, 2 * r + x % 2);
  }

  lemma DivUnique(x: int, d: int, q: int, r: int)
    requires 0 <= r < d && x == q * d + r
    ensures x / d == q && x % d == r
  {
    var q' := x / d;
    assert x == q' * d + x % d;
    if q < q' { MulMono(q + 1, q', d); }
    if q' < q { MulMono(q' + 1, q, d); }
  }

  lemma MulMono(a: int, b: int, d: int)
    requires a <= b && 0 <= d
    ensures a * d <= b * d
  {
    assert (b - a) * d >= 0;
  }

  /** Shifting right by k is division by 2^k. */
  lemma {:induction false} ShiftIsDiv(x: nat, k: nat)
    ensures Shr(x, k) == x / Pow2(k)
  {
    if k != 0 {
      ShiftIsDiv(x / 2, k - 1);
      DoubleMod(x, Pow2(k - 1));
    }
  }

  /** The shift-and-mask form of ceil(n/b) is the least c with c*b >= n. */
  lemma ShiftMaskIsCeil(n: nat, k: nat)
    ensures var c, b := Shr(n, k) + (if And(n, Pow2(k) - 1) != 0 then 1 else 0), Pow2(k);
            c * b >= n && forall d: nat :: d * b >= n ==> d >= c
  {
    ShiftIsDiv(n, k);
    MaskIsMod(n, k);
    CeilIsLeast(n, Pow2(k));
  }

  lemma CeilIsLeast(n: nat, b: nat)
    requires b > 0
    ensures var c := n / b + (if n % b != 0 then 1 else 0);
            c * b >= n && forall d: nat :: d * b >= n ==> d >= c
  {
    var q, r := n / b, n % b;
    assert n == q * b + r;
    var c := q + (if r != 0 then 1 else 0);
    assert c * b == q * b + (if r != 0 then b else 0);
    forall d: nat | d * b >= n ensures d >= c {
      if d < c { MulMono(d, c - 1, b); }
    }
  }
}
