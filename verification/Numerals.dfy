/** Characters and numerals as they are written, independently of how the program reads them. */
module Numerals {
  import opened Bits
  import opened Bytes

  /** The bytes of an ASCII string. */
  function Ascii(s: string): (r: seq<byte>)
    ensures |r| == |s| && forall i :: 0 <= i < |s| ==> r[i] == s[i] as int % 256
  {
    seq(|s|, i requires 0 <= i < |s| => s[i] as int % 256)
  }

  // The digits in the order of their values, in both cases.
  const LOWER := "0123456789abcdef"
  const UPPER := "0123456789ABCDEF"

  predicate IsDigitOf(b: byte, v: nat)
    requires v < 16
  {
    b == LOWER[v] as int || b == UPPER[v] as int
  }

  /** A number without its last digit. */
  function Front(n: nat, base: nat): (q: nat)
    requires 2 <= base
    ensures if n < base then q == 0 else q < n
  {
    FrontLess(n, base);
    n / base
  }

  lemma FrontLess(n: nat, base: nat)
    requires 2 <= base
    ensures if n < base then n / base == 0 else n / base < n
  {
    if n >= base {
      var q := n / base;
      assert n == q * base + n % base;
      if q >= n { MulMono(2, base, q); }
    }
  }

  /** Its last digit. */
  function Last(n: nat, base: nat): (v: nat)
    requires 2 <= base
    ensures v < base && (n < base ==> v == n)
  {
    n % base
  }

  /** The digits write the number in the base: the last one is the remainder, the others write the quotient. Leading zeros
      and either case are allowed. */
  predicate Spells(d: seq<byte>, n: nat, base: nat)
    requires 2 <= base <= 16
    decreases |d|
  {
    if d == [] then n == 0 else IsDigitOf(d[|d| - 1], Last(n, base)) && Spells(d[..|d| - 1], Front(n, base), base)
  }

  function DigitChar(v: nat, upper: bool): (b: byte)
    requires v < 16
    ensures IsDigitOf(b, v)
  {
    DigitsAre(v);
    (if upper then UPPER else LOWER)[v] as int
  }

  /** The numeral of a number without leading zeros. */
  function Numeral(n: nat, base: nat, upper: bool): (d: seq<byte>)
    requires 2 <= base <= 16
    ensures d != []
  {
    var last := [DigitChar(Last(n, base), upper)];
    if n < base then last else Numeral(Front(n, base), base, upper) + last
  }

  /** One digit more. */
  lemma SpellsMore(d: seq<byte>, c: byte, n: nat, base: nat)
    requires 2 <= base <= 16 && Spells(d, Front(n, base), base) && IsDigitOf(c, Last(n, base))
    ensures Spells(d + [c], n, base)
  {
    hide IsDigitOf, Front, Last;
    assert (d + [c])[|d|] == c && (d + [c])[..|d|] == d;
  }

  lemma SpellsZero(base: nat)
    requires 2 <= base <= 16
    ensures Spells([], 0, base) && IsDigitOf(48, 0)
  {
    DigitsAre(0);
  }

  lemma {:induction false} NumeralSpells(n: nat, base: nat, upper: bool)
    requires 2 <= base <= 16
    ensures Spells(Numeral(n, base, upper), n, base)
  {
    hide Spells, IsDigitOf, DigitChar, Front, Last;
    var c := DigitChar(Last(n, base), upper);
    if n < base {
      SpellsZero(base);
      SpellsMore([], c, n, base);
      assert [] + [c] == [c];
    } else {
      NumeralSpells(Front(n, base), base, upper);
      SpellsMore(Numeral(Front(n, base), base, upper), c, n, base);
    }
  }

  function Zeros(k: nat): seq<byte> { if k == 0 then [] else Zeros(k - 1) + [48] }

  lemma {:induction false} ZerosSpell(k: nat, d: seq<byte>, n: nat, base: nat)
    requires 2 <= base <= 16 && Spells(d, n, base)
    ensures Spells(Zeros(k) + d, n, base)
    decreases k, |d|
  {
    hide IsDigitOf, Front, Last;
    if d != [] {
      var front, c := d[..|d| - 1], d[|d| - 1];
      ZerosSpell(k, front, Front(n, base), base);
      SpellsMore(Zeros(k) + front, c, n, base);
      assert Zeros(k) + front + [c] == Zeros(k) + d;
    } else {
      assert Zeros(k) + d == Zeros(k);
      OnlyZeros(k, base);
    }
  }

  lemma {:induction false} OnlyZeros(k: nat, base: nat)
    requires 2 <= base <= 16
    ensures Spells(Zeros(k), 0, base)
  {
    hide Spells, IsDigitOf, Front, Last;
    SpellsZero(base);
    if k > 0 {
      OnlyZeros(k - 1, base);
      SpellsMore(Zeros(k - 1), 48, 0, base);
    }
  }

  /** The digits in numbers. */
  lemma DigitsAre(v: nat)
    requires v < 16
    ensures LOWER[v] as int == if v < 10 then 48 + v else 87 + v
    ensures UPPER[v] as int == if v < 10 then 48 + v else 55 + v
  {
  }

  const SMALL := "abcdefghijklmnopqrstuvwxyz"
  const LARGE := "ABCDEFGHIJKLMNOPQRSTUVWXYZ"

  /** A letter of the alphabet. */
  predicate IsLetter(b: byte) {
    exists i :: 0 <= i < 26 && (b == SMALL[i] as int || b == LARGE[i] as int)
  }

  lemma LettersAre(i: nat)
    requires i < 26
    ensures SMALL[i] as int == 97 + i && LARGE[i] as int == 65 + i
  {
  }

  lemma LetterIs(b: byte)
    ensures IsLetter(b) <==> 65 <= b <= 90 || 97 <= b <= 122
  {
    if 97 <= b <= 122 { LettersAre(b - 97); }
    if 65 <= b <= 90 { LettersAre(b - 65); }
    forall i | 0 <= i < 26 && (b == SMALL[i] as int || b == LARGE[i] as int) ensures 65 <= b <= 90 || 97 <= b <= 122 {
      LettersAre(i);
    }
  }
}
