/** Reading multi-precision integers from text: strtomp (libmp/strtomp.c). */
module MpParse {
  import opened Digits
  import opened MpInts
  import opened MpMul
  import opened MpText
  import N = Numerals

  // ----------------------------------------------------------- what is read

  /** Past the digits at i. */
  function Run(s: string, i: nat, base: N.Base): (e: nat)
    requires i <= |s|
    ensures i <= e <= |s| && N.AllDigits(s[i..e], base) && (e < |s| ==> N.DigitOf(s[e], base) == N.INVAL)
    decreases |s| - i
  {
    if i < |s| && N.DigitOf(s[i], base) != N.INVAL then
      var e := Run(s, i + 1, base);
      assert s[i..e] == [s[i]] + s[i+1..e];
      e
    else i
  }

  predicate Blank(c: char)
  {
    c == ' ' || c == '\t'
  }

  function SkipBlanks(s: string, i: nat): (r: nat)
    requires i <= |s|
    ensures i <= r <= |s|
    decreases |s| - i
  {
    if i < |s| && Blank(s[i]) then SkipBlanks(s, i + 1) else i
  }

  /** Past the minus signs at i, each of which changes the sign. */
  function Signs(s: string, i: nat, sign: int): (r: (int, nat))
    requires i <= |s| && (sign == 1 || sign == -1)
    ensures i <= r.1 <= |s| && (r.0 == 1 || r.0 == -1)
    decreases |s| - i
  {
    if i < |s| && s[i] == '-' then Signs(s, i + 1, -sign) else (sign, i)
  }

  /** A sign, a magnitude, and where its text ends. */
  datatype Reading = NoNumber | Reading(sign: int, mag: nat, end: nat)

  function Read(s: string, base: N.Base): Reading
  {
    var (sign, j) := Signs(s, SkipBlanks(s, 0), 1);
    var e := Run(s, j, base);
    if e == j then NoNumber else Reading(sign, N.Number(s[j..e], base), e)
  }

  lemma {:induction false} RunOver(s: string, i: nat, t: string, base: N.Base)
    requires i + |t| < |s| && s[i..i+|t|] == t && N.AllDigits(t, base) && s[i+|t|] == '\0'
    ensures Run(s, i, base) == i + |t|
    decreases |t|
  {
    if |t| > 0 {
      assert s[i] == t[0] && s[i+1..i+|t|] == t[1..];
      RunOver(s, i + 1, t[1..], base);
    }
  }

  /** What was written for a number is read as that number, minus zero included. */
  lemma TextRestored(sign: int, n: nat, base: N.Base, rest: string)
    requires sign == 1 || sign == -1
    ensures var t := Text(sign, n, base); Read(t + ['\0'] + rest, base) == Reading(sign, n, |t|)
  {
    hide N.Numeral, N.Number;
    var t, d := Text(sign, n, base), N.Numeral(n, base);
    var s := t + ['\0'] + rest;
    N.NumeralRestored(n, base);
    DigitFirst(d, base);
    var j := if sign < 0 then 1 else 0;
    assert s[j..j+|d|] == d && s[j] == d[0];
    RunOver(s, j, d, base);
    NotSkipped(s, j, sign);
  }

  lemma DigitFirst(d: string, base: N.Base)
    requires |d| > 0 && N.AllDigits(d, base)
    ensures !Blank(d[0]) && d[0] != '-'
  {
    assert N.DigitOf(d[0], base) != N.INVAL;
  }

  lemma NotSkipped(s: string, j: nat, sign: int)
    requires j < |s| && !Blank(s[j]) && s[j] != '-'
    requires if sign < 0 then j == 1 && s[0] == '-' && sign == -1 else j == 0 && sign == 1
    ensures SkipBlanks(s, 0) == 0 && Signs(s, 0, 1) == (sign, j)
  {
  }

  function Minuses(n: nat): (m: string)
    ensures |m| == n && forall k :: 0 <= k < n ==> m[k] == '-'
  {
    seq(n, _ => '-')
  }

  lemma {:induction false} BlanksOver(s: string, i: nat, j: nat)
    requires i <= j <= |s| && forall k :: i <= k < j ==> s[k] == ' ' || s[k] == '\t'
    ensures SkipBlanks(s, i) == SkipBlanks(s, j)
    decreases j - i
  {
    if i < j { BlanksOver(s, i + 1, j); }
  }

  lemma {:induction false} SignsOver(s: string, i: nat, j: nat, sign: int)
    requires i <= j <= |s| && (sign == 1 || sign == -1) && forall k :: i <= k < j ==> s[k] == '-'
    ensures Signs(s, i, sign) == Signs(s, j, if (j - i) % 2 == 0 then sign else -sign)
    decreases j - i
  {
    if i < j { SignsOver(s, i + 1, j, -sign); }
  }

  lemma {:induction false} DigitsOver(s: string, i: nat, j: nat, base: N.Base)
    requires i <= j <= |s| && (forall k :: i <= k < j ==> N.DigitOf(s[k], base) != N.INVAL)
    requires j < |s| ==> N.DigitOf(s[j], base) == N.INVAL
    ensures Run(s, i, base) == j
    decreases j - i
  {
    if i < j { DigitsOver(s, i + 1, j, base); }
  }

  /** Blanks, minus signs and digits are read as the number of the digits, negated once for each sign. */
  lemma SpelledIsRead(blanks: string, minuses: nat, digits: string, rest: string, base: N.Base)
    requires (forall k :: 0 <= k < |blanks| ==> blanks[k] == ' ' || blanks[k] == '\t') && digits != "" && N.AllDigits(digits, base)
    requires rest != "" ==> N.DigitOf(rest[0], base) == N.INVAL
    ensures Read(blanks + Minuses(minuses) + digits + rest, base) ==
      Reading(if minuses % 2 == 0 then 1 else -1, N.Number(digits, base), |blanks| + minuses + |digits|)
  {
    hide N.DigitOf, N.Number, Minuses;
    var s := blanks + Minuses(minuses) + digits + rest;
    var i, j := |blanks|, |blanks| + minuses;
    var e := j + |digits|;
    assert s[j..e] == digits;
    assert s[j] == digits[0] && !Blank(s[j]) && s[j] != '-' by { DigitFirst(digits, base); }
    BlanksOver(s, 0, i);
    SignsOver(s, i, j, 1);
    DigitsOver(s, j, e, base);
  }

  /** And without digits there, nothing is read. */
  lemma NothingToRead(blanks: string, minuses: nat, rest: string, base: N.Base)
    requires forall k :: 0 <= k < |blanks| ==> blanks[k] == ' ' || blanks[k] == '\t'
    requires rest != "" ==> N.DigitOf(rest[0], base) == N.INVAL && rest[0] != '-' && (minuses > 0 || (rest[0] != ' ' && rest[0] != '\t'))
    ensures Read(blanks + Minuses(minuses) + rest, base) == NoNumber
  {
    hide N.DigitOf, N.Number, Minuses;
    var s := blanks + Minuses(minuses) + rest;
    var i, j := |blanks|, |blanks| + minuses;
    if rest != "" { assert s[j] == rest[0]; }
    BlanksOver(s, 0, i);
    SignsOver(s, i, j, 1);
  }

  // ------------------------------------------------------------- base ten

  /** A small number. */
  method uitomp(i: Digit, b: MpInt)
    requires b.Valid() && b.p.Length > 0
    modifies b, b.p
    ensures b.Valid() && b.V() == i && b.sign == 1 && (b.p == old(b.p) || fresh(b.p)) && b.p.Length > 0
  {
    hide Val;
    var mpzero := new MpInt.OfDigit(0);
    MagIsZero(mpzero);
    mpassign(mpzero, b);
    MagIsZero(b);
    if i != 0 {
      b.top := 1;
    }
    b.p[0] := i;
    ValEmpty();
    ValOne(i);
    assert i != 0 ==> b.p[..b.top] == [i];
  }

  const MPPOW10: seq<Digit> := [1, 10, 100, 1000, 1_0000, 10_0000, 100_0000, 1000_0000, 1_0000_0000, 10_0000_0000]

  lemma TableOfPowers(i: nat)
    requires i <= 9
    ensures MPPOW10[i] == N.Power(10, i)
  {
    assert N.Power(10, 3) == 1000;
    assert N.Power(10, 6) == 1000 * N.Power(10, 3);
    if i < 4 { } else if i < 7 { } else { assert N.Power(10, 9) == 1000 * N.Power(10, 6); }
  }

  /** Up to nine digits at a, in native arithmetic. */
  method nineDigitsAt(s: string, a0: nat) returns (x: Digit, i: nat)
    requires a0 <= |s|
    ensures i <= 9 && a0 + i <= |s| && Taken(s, a0, a0 + i, x) && (i < 9 ==> Run(s, a0 + i, 10) == a0 + i)
  {
    hide N.DigitOf, N.Number, N.Power;
    var v: nat := 0;
    i := 0;
    NumberNone();
    PowerTen(0);
    while i < 9
      invariant i <= 9 && a0 + i <= |s| && N.AllDigits(s[a0..a0+i], 10) && v == N.Number(s[a0..a0+i], 10)
      invariant v < MPPOW10[i] && Run(s, a0, 10) == Run(s, a0 + i, 10)
    {
      ghost var a := a0 + i;
      if a0 + i == |s| {
        break;
      }
      var y := N.DigitOf(s[a0+i], 10);
      if y == N.INVAL {
        break;
      }
      assert s[a0..a0+i+1] == s[a0..a0+i] + [s[a0+i]];
      N.NumberLast(s[a0..a0+i], s[a0+i], 10);
      PowerTen(i);
      v := v * 10 + y;
      i := i + 1;
    }
    x := v;
  }

  lemma NumberNone()
    ensures N.Number([], 10) == 0
  {
  }

  lemma PowerTen(i: nat)
    requires i <= 9
    ensures i < 9 ==> MPPOW10[i+1] == 10 * MPPOW10[i]
    ensures MPPOW10[i] <= BILLION
  {
  }

  /** The numbers from10 works with. */
  ghost predicate Apart(b: MpInt, pow: MpInt, r: MpInt)
    reads b, b.p, pow, pow.p, r, r.p
  {
    && b.Valid() && pow.Valid() && pow.p.Length > 0 && r.Valid() && r.p.Length > 0
    && pow != b && r != b && pow != r && pow.p != b.p && r.p != b.p && pow.p != r.p
  }

  /** Moves b up and adds x to it. */
  method accumulate(b: MpInt, pow: MpInt, r: MpInt, up: Digit, x: Digit)
    requires Apart(b, pow, r)
    modifies b, b.p, pow, pow.p, r, r.p
    ensures Apart(b, pow, r) && b.V() == old(b.V()) * up + x
    ensures (b.p == old(b.p) || fresh(b.p)) && (pow.p == old(pow.p) || fresh(pow.p)) && (r.p == old(r.p) || fresh(r.p))
  {
    hide Val;
    uitomp(up, pow);
    uitomp(x, r);
    mpmul(b, pow, b);
    mpadd(b, r, b);
  }

  /** Reads digits in base ten, nine at a time. */
  method from10(s: string, a0: nat, b: MpInt) returns (a: nat)
    requires a0 <= |s| && b.Shape()
    modifies b, b.p
    ensures b.Valid() && (b.p == old(b.p) || fresh(b.p))
    ensures a == Run(s, a0, 10) && b.Mag() == N.Number(s[a0..a], 10)
  {
    hide Val, N.Number, N.DigitOf, N.Power, Taken;
    var pow := new MpInt(0);
    var r := new MpInt(0);
    b.top := 0;
    MagIsZero(b);
    TakenNone(s, a0);
    a := a0;
    while true
      invariant Apart(b, pow, r) && fresh(pow) && fresh(pow.p) && fresh(r) && fresh(r.p)
      invariant a <= |s| && Taken(s, a0, a, b.V()) && (b.p == old(b.p) || fresh(b.p))
      decreases |s| - a
    {
      ghost var v := b.V();
      var x, i := nineDigitsAt(s, a);
      if i == 0 {
        break;
      }
      accumulate(b, pow, r, MPPOW10[i], x);
      TakenNext(s, a0, a, i, v, x);
      a := a + i;
      if i != 9 {
        break;
      }
    }
    TakenAll(s, a0, a, b.V());
  }

  /** The digits from a0 to a are read as v. */
  ghost predicate Taken(s: string, a0: nat, a: nat, v: int)
  {
    a0 <= a <= |s| && N.AllDigits(s[a0..a], 10) && v == N.Number(s[a0..a], 10) && Run(s, a0, 10) == Run(s, a, 10)
  }

  lemma TakenNone(s: string, a: nat)
    requires a <= |s|
    ensures Taken(s, a, a, 0)
  {
    NumberNone();
    assert s[a..a] == [];
  }

  lemma TakenNext(s: string, a0: nat, a: nat, i: nat, v: int, x: int)
    requires i <= 9 && Taken(s, a0, a, v) && Taken(s, a, a + i, x)
    ensures Taken(s, a0, a + i, v * MPPOW10[i] + x)
  {
    TableOfPowers(i);
    hide Taken, N.Power;
    TakenMore(s, a0, a, i, v, x);
  }

  lemma TakenMore(s: string, a0: nat, a: nat, i: nat, v: int, x: int)
    requires Taken(s, a0, a, v) && Taken(s, a, a + i, x)
    ensures Taken(s, a0, a + i, v * N.Power(10, i) + x)
  {
    hide N.Number, N.DigitOf, N.Power;
    assert s[a0..a+i] == s[a0..a] + s[a..a+i];
    N.NumberJoin(s[a0..a], s[a..a+i], 10);
  }

  lemma TakenAll(s: string, a0: nat, a: nat, v: int)
    requires Taken(s, a0, a, v) && a == Run(s, a, 10)
    ensures a0 <= a == Run(s, a0, 10) && v == N.Number(s[a0..a], 10) >= 0
  {
  }

  // --------------------------------------------------------- base sixteen

  /** The digit made of the hexadecimal digits t, no more than eight. */
  lemma NumberFits(t: string)
    requires |t| <= 8 && N.AllDigits(t, 16)
    ensures N.Number(t, 16) < N.Power(16, |t|) <= BASE
  {
    NumberBelow(t);
    PowerGrows(|t|, 8);
    HighEnds(1, 0);
  }

  lemma {:induction false} NumberBelow(t: string)
    requires N.AllDigits(t, 16)
    ensures N.Number(t, 16) < N.Power(16, |t|)
  {
    if |t| > 0 {
      NumberBelow(t[..|t|-1]);
    }
  }

  lemma {:induction false} PowerGrows(i: nat, j: nat)
    requires i <= j
    ensures N.Power(16, i) <= N.Power(16, j)
  {
    if i < j {
      PowerGrows(i, j - 1);
    }
  }

  /** Eight hexadecimal digits at the end of s[a..p], or all there are if fewer. */
  method digitBefore(s: string, a: nat, p0: nat) returns (x: Digit, p: nat)
    requires a < p0 <= |s| && N.AllDigits(s[a..p0], 16)
    ensures p == if p0 - a < 8 then a else p0 - 8
    ensures N.AllDigits(s[p..p0], 16) && x == N.Number(s[p..p0], 16)
  {
    hide N.DigitOf, N.Number, N.Power;
    var v: nat := 0;
    p := p0;
    NumberNone16();
    assert s[p..p0] == [];
    for i := 0 to 8
      invariant a <= p <= p0 && (p == p0 - i || p == a) && p0 - p <= i
      invariant N.AllDigits(s[p..p0], 16) && v == N.Number(s[p..p0], 16)
    {
      if p <= a {
        break;
      }
      p := p - 1;
      assert s[p] == s[a..p0][p-a];
      assert s[p..p0] == [s[p]] + s[p+1..p0];
      N.NumberFirst(s[p], s[p+1..p0], 16);
      v := v + N.DigitOf(s[p], 16) * N.Power(16, i);      // the words have no common bit
    }
    NumberFits(s[p..p0]);
    x := v;
  }

  lemma NumberNone16()
    ensures N.Number([], 16) == 0
  {
  }

  /** The digits D are those of the text from p to e, which is eight characters for each but for the last at a. */
  ghost predicate Gathered(s: string, a: nat, p: nat, e: nat, D: seq<Digit>)
  {
    && a <= p <= e <= |s| && N.AllDigits(s[p..e], 16) && Val(D) == N.Number(s[p..e], 16)
    && (if p > a then e - p == 8 * |D| else 8 * (|D| - 1) < e - p <= 8 * |D|)
  }

  lemma GatheredNone(s: string, a: nat, e: nat)
    requires a < e <= |s|
    ensures Gathered(s, a, e, e, [])
  {
    NumberNone16();
    assert s[e..e] == [];
    ValEmpty();
  }

  lemma GatheredNext(s: string, a: nat, p: nat, e: nat, D: seq<Digit>, q: nat, x: Digit)
    requires a < p && Gathered(s, a, p, e, D) && q == (if p - a < 8 then a else p - 8)
    requires N.AllDigits(s[q..p], 16) && x == N.Number(s[q..p], 16)
    ensures Gathered(s, a, q, e, D + [x])
  {
    hide N.Number, N.DigitOf, Val;
    assert s[q..e] == s[q..p] + s[p..e];
    N.NumberJoin(s[q..p], s[p..e], 16);
    ValAppend(D, x);
    PowerOfDigits(|D|);
    ShiftIs(x, |D|);
  }

  lemma ShiftIs(x: int, n: nat)
    ensures Shift(x, n) == x * BPow(n)
  {
  }

  lemma {:induction false} PowerOfDigits(n: nat)
    ensures N.Power(16, 8 * n) == BPow(n)
  {
    if n > 0 {
      PowerOfDigits(n - 1);
      EightMore(8 * (n - 1));
    }
  }

  lemma EightMore(k: nat)
    ensures N.Power(16, k + 8) == BASE * N.Power(16, k)
  {
    assert N.Power(16, k + 2) == 256 * N.Power(16, k);
    assert N.Power(16, k + 4) == 256 * N.Power(16, k + 2);
    assert N.Power(16, k + 6) == 256 * N.Power(16, k + 4);
    assert N.Power(16, k + 8) == 256 * N.Power(16, k + 6);
  }

  lemma GatheredAll(s: string, a: nat, e: nat, D: seq<Digit>)
    requires Gathered(s, a, a, e, D)
    ensures Val(D) == N.Number(s[a..e], 16)
  {
  }

  /** There is room for one more digit. */
  lemma RoomFor(s: string, a: nat, p: nat, e: nat, D: seq<Digit>)
    requires a < p && Gathered(s, a, p, e, D)
    ensures |D| < DigitsFor((e - a) * 4)
  {
  }

  /** Reads digits in base sixteen, from the last to the first. */
  method from16(s: string, a: nat, b: MpInt) returns (next: nat)
    requires a <= |s| && b.Shape()
    modifies b, b.p
    ensures b.Shape() && (b.p == old(b.p) || fresh(b.p))
    ensures next == Run(s, a, 16) && b.Mag() == N.Number(s[a..next], 16) && (next == a ==> b.top == 0)
  {
    hide N.Number, N.DigitOf, Val, Gathered;
    b.top := 0;
    var p := a;
    while p < |s| && N.DigitOf(s[p], 16) != N.INVAL
      invariant a <= p <= |s| && Run(s, a, 16) == Run(s, p, 16) && b.top == 0
    {
      p := p + 1;
    }
    mpbits(b, (p - a) * 4);
    b.top := 0;
    next := p;
    ghost var room := DigitsFor((p - a) * 4);
    ghost var D: seq<Digit>, bp := [], b.p;
    NoneRead(s, a);
    ValEmpty();
    if a < p { GatheredNone(s, a, p); }
    while p > a
      invariant a <= p <= next && b.p == bp && b.p.Length >= room && b.Shape()
      invariant b.top == |D| <= room && b.p[..b.top] == D
      invariant a < next ==> Gathered(s, a, p, next, D)
      invariant a == next ==> D == []
      modifies b, bp
    {
      RoomFor(s, a, p, next, D);
      Within(s, a, p, next);
      var x, q := digitBefore(s, a, p);
      GatheredNext(s, a, p, next, D, q, x);
      p := q;
      b.p[b.top] := x;
      b.top := b.top + 1;
      D := D + [x];
    }
    if a < next { GatheredAll(s, a, next, D); }
  }

  lemma NoneRead(s: string, a: nat)
    requires a <= |s|
    ensures s[a..a] == [] && N.Number([], 16) == 0
  {
  }

  lemma Within(s: string, a: nat, p: nat, e: nat)
    requires a <= p <= e <= |s| && N.AllDigits(s[a..e], 16)
    ensures N.AllDigits(s[a..p], 16)
  {
    forall i | 0 <= i < p - a ensures N.DigitOf(s[a..p][i], 16) != N.INVAL {
      assert s[a..p][i] == s[a..e][i];
    }
  }

  // ---------------------------------------------------------------- strtomp

  /** Reads a number into b, or into a new one: nothing if no digits are there. */
  method strtomp(s: string, base: int, b0: MpInt?) returns (r: MpInt?, e: nat)
    requires base != 32 && base != 64 && (b0 != null ==> b0.Shape())
    modifies if b0 == null then {} else {b0, b0.p}
    ensures match Read(s, TextBase(base))
      case NoNumber => r == null
      case Reading(sign, mag, end) =>
        r != null && r.Valid() && r.sign == sign && r.Mag() == mag && e == end && (if b0 != null then r == b0 else fresh(r))
  {
    hide N.Number, N.DigitOf, Val;
    var b: MpInt;
    if b0 == null {
      b := new MpInt(0);
    } else {
      b := b0;
    }
    var a := 0;
    while a < |s| && Blank(s[a])
      invariant a <= |s| && SkipBlanks(s, 0) == SkipBlanks(s, a)
    {
      a := a + 1;
    }
    var sign := 1;
    ghost var i := a;
    while a < |s| && s[a] == '-'
      invariant i <= a <= |s| && (sign == 1 || sign == -1) && Signs(s, i, 1) == Signs(s, a, sign)
    {
      sign := -sign;
      a := a + 1;
    }
    if base == 10 {
      e := from10(s, a, b);
    } else {
      e := from16(s, a, b);
    }
    if e == a {
      return null, e;
    }
    mpnorm(b);
    b.sign := sign;
    r := b;
  }
}
