/** Numbers written with digits in base ten or sixteen. */
module Numerals {
  type Base = b: int | b == 10 || b == 16 witness 10

  const INVAL: int := 255

  /** The character for a digit, from set16 of mpfmt.c. */
  function DigitChar(j: int): char
    requires 0 <= j < 16
  {
    "0123456789ABCDEF"[j]
  }

  /** The digit for a character: the tables t10 and t16 of strtomp.c. */
  function DigitOf(c: char, base: Base): (d: int)
    ensures d == INVAL || 0 <= d < base
  {
    if '0' <= c <= '9' then c as int - '0' as int
    else if base == 16 && 'A' <= c <= 'F' then c as int - 'A' as int + 10
    else if base == 16 && 'a' <= c <= 'f' then c as int - 'a' as int + 10
    else INVAL
  }

  /** A character stands for the digit whose place it has in either row, and for none without a place below the base. */
  lemma DigitExactly(c: char, base: Base, d: int)
    requires 0 <= d < base
    ensures DigitOf(c, base) == d <==> c == "0123456789abcdef"[d] || c == "0123456789ABCDEF"[d]
  {
  }

  /** The digits of n, none for zero. */
  function Digits(n: nat, base: Base): string
  {
    if n == 0 then [] else Digits(n / base, base) + [DigitChar(n % base)]
  }

  /** The digits of n, at least one. */
  function Numeral(n: nat, base: Base): (s: string)
    ensures |s| > 0
  {
    if n == 0 then "0" else Digits(n, base)
  }

  predicate AllDigits(s: string, base: Base)
  {
    forall i :: 0 <= i < |s| ==> DigitOf(s[i], base) != INVAL
  }

  /** The number a string of digits stands for. */
  function Number(s: string, base: Base): (n: nat)
    requires AllDigits(s, base)
  {
    if |s| == 0 then 0 else base * Number(s[..|s|-1], base) + DigitOf(s[|s|-1], base)
  }

  function Power(base: Base, n: nat): (p: nat)
    ensures p > 0
  {
    if n == 0 then 1 else base * Power(base, n - 1)
  }

  lemma {:induction false} NumberJoin(s: string, t: string, base: Base)
    requires AllDigits(s, base) && AllDigits(t, base)
    ensures AllDigits(s + t, base) && Number(s + t, base) == Number(s, base) * Power(base, |t|) + Number(t, base)
  {
    if |t| == 0 {
      assert s + t == s;
    } else {
      var m := |t| - 1;
      NumberJoin(s, t[..m], base);
      assert (s + t)[..|s|+m] == s + t[..m];
      hide DigitOf;
      MoveUp(Number(s, base), Power(base, m), Number(t[..m], base), base);
    }
  }

  lemma MoveUp(x: int, p: int, y: int, base: Base)
    ensures base * (x * p + y) == x * (base * p) + base * y
  {
    assert base == 10 || base == 16;
  }

  lemma NumberLast(s: string, c: char, base: Base)
    requires AllDigits(s, base) && DigitOf(c, base) != INVAL
    ensures AllDigits(s + [c], base) && Number(s + [c], base) == base * Number(s, base) + DigitOf(c, base)
  {
    assert (s + [c])[..|s|] == s;
  }

  lemma NumberFirst(c: char, s: string, base: Base)
    requires AllDigits(s, base) && DigitOf(c, base) != INVAL
    ensures AllDigits([c] + s, base) && Number([c] + s, base) == DigitOf(c, base) * Power(base, |s|) + Number(s, base)
  {
    assert Number([c], base) == DigitOf(c, base) by { assert [c][..0] == []; }
    NumberJoin([c], s, base);
  }

  lemma CharRestored(j: int, base: Base)
    requires 0 <= j < base
    ensures DigitOf(DigitChar(j), base) == j
  {
  }

  lemma Shorter(n: nat, base: Base)
    requires n > 0
    ensures n / base < n && n / base <= n / 8 && n == base * (n / base) + n % base
  {
    if base == 10 {
      assert n / 10 <= n / 8;
    } else {
      assert n / 16 <= n / 8;
    }
  }

  lemma {:induction false} DigitsRestored(n: nat, base: Base)
    ensures AllDigits(Digits(n, base), base) && Number(Digits(n, base), base) == n
  {
    if n > 0 {
      Shorter(n, base);
      DigitsRestored(n / base, base);
      CharRestored(n % base, base);
      NumberLast(Digits(n / base, base), DigitChar(n % base), base);
    }
  }

  /** A numeral is read as the number it was written for. */
  lemma NumeralRestored(n: nat, base: Base)
    ensures AllDigits(Numeral(n, base), base) && Number(Numeral(n, base), base) == n
  {
    if n == 0 {
      CharRestored(0, base);
      NumberLast([], '0', base);
      assert [] + ['0'] == "0";
    } else {
      DigitsRestored(n, base);
    }
  }

  /** Eight to the n-th power. */
  function Eights(n: nat): (p: nat)
    ensures p > 0
  {
    if n == 0 then 1 else 8 * Eights(n - 1)
  }

  lemma EightsNext(k: nat)
    ensures Eights(k) == if k == 0 then 1 else 8 * Eights(k - 1)
  {
  }

  /** Numbers of n bits by threes have no more than n digits. */
  lemma {:induction false} DigitsShort(n: nat, k: nat, base: Base)
    requires n < Eights(k)
    ensures |Digits(n, base)| <= k
  {
    if n > 0 {
      Shorter(n, base);
      hide Eights;
      EightsNext(k);
      DigitsShort(n / base, k - 1, base);
    }
  }
}
