/** Multi-precision integers as text: mptoa (libmp/mpfmt.c) and strtomp (libmp/strtomp.c). */
module MpText {
  import opened Digits
  import opened MpInts
  import opened MpShift
  import opened MpDiv
  import opened MpMul
  import N = Numerals

  const BILLION: int := 1_000_000_000

  // --------------------------------------------------------------- base ten

  /** Of the numeral for n, suf is written, and m is left to write before it. */
  ghost predicate Tail(n: nat, m: nat, suf: string)
  {
    (|suf| == 0 && m == n) || N.Numeral(n, 10) == N.Digits(m, 10) + suf
  }

  /** The last digit of what is left comes before what is written. */
  lemma TailNext(n: nat, m: nat, suf: string)
    requires Tail(n, m, suf) && (m > 0 || |suf| == 0)
    ensures Tail(n, m / 10, [N.DigitChar(m % 10)] + suf)
  {
    var c, rest := N.DigitChar(m % 10), N.Digits(m / 10, 10);
    if m == 0 {
      assert [c] + suf == "0" && rest + "0" == "0";
    } else {
      assert N.Digits(m, 10) == rest + [c];
      hide N.Digits, N.DigitChar;
      assert rest + [c] + suf == rest + ([c] + suf);
      if |suf| == 0 && m == n {
        NumeralIs(n);
        assert rest + [c] + suf == rest + [c];
      }
    }
  }

  lemma NumeralIs(n: nat)
    requires n > 0
    ensures N.Numeral(n, 10) == N.Digits(n, 10)
  {
  }

  /** There is a digit left to write. */
  lemma TailLonger(n: nat, m: nat, suf: string)
    requires Tail(n, m, suf) && (m > 0 || |suf| == 0)
    ensures |N.Numeral(n, 10)| > |suf|
  {
    hide N.Numeral;
  }

  lemma TailDone(n: nat, suf: string)
    requires Tail(n, 0, suf) && |suf| > 0
    ensures N.Numeral(n, 10) == suf
  {
    assert N.Digits(0, 10) + suf == suf;
  }

  /** What is left when the low part is down to r, of fewer than k digits. */
  function Left(q: nat, k: nat, r: nat): nat
  {
    q * N.Power(10, k) + r
  }

  lemma LeftNext(q: nat, k: nat, r: nat)
    requires k > 0 && r < N.Power(10, k)
    ensures Left(q, k, r) / 10 == Left(q, k - 1, r / 10) && Left(q, k, r) % 10 == r % 10 && r / 10 < N.Power(10, k - 1)
    ensures Left(q, k - 1, r / 10) == 0 <==> q == 0 && r / 10 == 0
  {
    var p := N.Power(10, k - 1);
    assert q * (10 * p) == 10 * (q * p);
    if q > 0 {
      MulMono(1, q, p);
    }
  }

  lemma LeftEnd(q: nat, r: nat)
    requires r < N.Power(10, 0)
    ensures Left(q, 0, r) == q
  {
  }

  lemma PowerNine()
    ensures N.Power(10, 9) == BILLION
  {
    assert N.Power(10, 3) == 1000;
    assert N.Power(10, 6) == 1000 * N.Power(10, 3);
    assert N.Power(10, 9) == 1000 * N.Power(10, 6);
  }

  /**
   * Nine digits of r before out, or just its own if nothing is left above them. The number being written is n, of
   * which rem * 10^9 + r is left; it does not fit between lo and end if this fails.
   */
  method modbillion(rem: bool, r0: nat, out0: nat, buf: array<char>, lo: nat, ghost end: nat, ghost n: nat, ghost q: nat)
    returns (ok: bool, out: nat)
    requires lo <= out0 <= end <= buf.Length && r0 < BILLION && (rem <==> q > 0)
    requires Tail(n, q * BILLION + r0, buf[out0..end]) && (q * BILLION + r0 > 0 || out0 == end)
    modifies buf
    ensures forall k :: 0 <= k < buf.Length && !(lo <= k < end) ==> buf[k] == old(buf[k])
    ensures ok ==> lo <= out < end && Tail(n, q, buf[out..end])
    ensures !ok ==> |N.Numeral(n, 10)| > end - lo
  {
    hide Tail, Left, N.DigitChar;
    PowerNine();
    FirstLeft(q, r0);
    hide N.Power;
    var r: nat := r0;
    out := out0;
    for i := 0 to 9
      invariant lo <= out <= end && (i > 0 ==> out < end) && r < N.Power(10, 9 - i)
      invariant Tail(n, Left(q, 9 - i, r), buf[out..end]) && (Left(q, 9 - i, r) > 0 || out == end)
      invariant forall k :: 0 <= k < buf.Length && !(out <= k < end) ==> buf[k] == old(buf[k])
    {
      ghost var suf, m := buf[out..end], Left(q, 9 - i, r);
      LeftNext(q, 9 - i, r);
      TailNext(n, m, suf);
      TailLonger(n, m, suf);
      var rr := r % 10;
      r := r / 10;
      if out <= lo {
        return false, out;
      }
      out := out - 1;
      buf[out] := N.DigitChar(rr);
      assert buf[out..end] == [N.DigitChar(rr)] + suf;
      if !rem && r == 0 {
        return true, out;
      }
    }
    LeftEnd(q, r);
    ok := true;
  }

  lemma FirstLeft(q: nat, r: nat)
    ensures Left(q, 9, r) == q * BILLION + r
  {
    PowerNine();
  }

  /** buf holds the string t at o. */
  ghost predicate Holds(buf: seq<char>, o: nat, t: string)
  {
    o + |t| < |buf| && buf[o..o+|t|] == t && buf[o+|t|] == '\0'
  }

  lemma LowDigit(r: MpInt)
    requires r.Valid() && r.Mag() < BASE && r.p.Length > 0 && (r.top == 0 ==> r.p[0] == 0)
    ensures r.p[0] == r.Mag()
  {
    if r.top == 0 {
      ValEmpty();
    } else if r.top == 1 {
      assert r.p[..1] == [r.p[0]];
      ValOne(r.p[0]);
    } else {
      LongIsLarge(r.p[..r.top]);
    }
  }

  lemma LongIsLarge(s: seq<Digit>)
    requires |s| > 1 && s[|s|-1] != 0
    ensures Val(s) >= BASE
  {
    assert BPow(1) == BASE;
    BPowMonotone(1, |s| - 1);
    ValLead(s);
  }

  /** The numbers to10 works with. */
  ghost predicate Dividing(d: MpInt, r: MpInt, billion: MpInt)
    reads d, d.p, r, r.p, billion, billion.p
  {
    && d.Valid() && r.Valid() && billion.Valid() && billion.Mag() == BILLION && billion.top != 0
    && d.p != billion.p && r.p != billion.p && d.p != r.p && d != r && d != billion && r != billion
    && r.p.Length > 0
  }

  /** Takes the last nine digits off d, and writes them before out. */
  method nineDigits(d: MpInt, r: MpInt, billion: MpInt, buf: array<char>, o: nat, out: nat, ghost end: nat, ghost n: nat)
    returns (ok: bool, next: nat)
    requires Dividing(d, r, billion) && (d.top > 0 || r.p[0] == 0) && o <= out <= end < buf.Length && (d.Mag() > 0 || out == end)
    requires Tail(n, d.Mag(), buf[out..end])
    modifies d, d.p, r, r.p, buf
    ensures Dividing(d, r, billion) && (d.p == old(d.p) || fresh(d.p)) && (r.p == old(r.p) || fresh(r.p))
    ensures forall k :: 0 <= k < buf.Length && !(o <= k < end) ==> buf[k] == old(buf[k])
    ensures if old(d.Mag()) > 0 then d.Mag() < old(d.Mag()) else d.Mag() == 0
    ensures ok ==> o <= next < end && Tail(n, d.Mag(), buf[next..end])
    ensures !ok ==> |N.Numeral(n, 10)| > end - o
    ensures d.Mag() > 0 <==> d.top != 0
  {
    hide Val, N.Numeral, Tail;
    ghost var m := d.Mag();
    MagIsZero(d);
    mpdiv(d, billion, d, r);
    Billions(m);
    LowDigit(r);
    MagIsZero(d);
    ok, next := modbillion(d.top != 0, r.p[0], out, buf, o, end, n, d.Mag());
  }

  /** The loop of to10, which fills buf backwards from end. */
  method tenLoop(d: MpInt, r: MpInt, billion: MpInt, buf: array<char>, o: nat, end: nat) returns (ok: bool, out: nat)
    requires Dividing(d, r, billion) && r.p[0] == 0 && o <= end < buf.Length
    modifies d, d.p, r, r.p, buf
    ensures forall k :: 0 <= k < buf.Length && !(o <= k < end) ==> buf[k] == old(buf[k])
    ensures ok ==> o <= out < end && buf[out..end] == N.Numeral(old(d.Mag()), 10)
    ensures !ok ==> |N.Numeral(old(d.Mag()), 10)| > end - o
  {
    hide Val, N.Numeral, Tail;
    ghost var n := d.Mag();
    out := end;
    TailFirst(n);
    MagIsZero(d);
    assert buf[out..end] == [];
    while true
      invariant Dividing(d, r, billion) && (d.top > 0 || r.p[0] == 0)
      invariant (d.p == old(d.p) || fresh(d.p)) && (r.p == old(r.p) || fresh(r.p))
      invariant o <= out <= end && (d.Mag() > 0 || out == end)
      invariant Tail(n, d.Mag(), buf[out..end])
      invariant forall k :: 0 <= k < buf.Length && !(o <= k < end) ==> buf[k] == old(buf[k])
      decreases d.Mag()
    {
      ok, out := nineDigits(d, r, billion, buf, o, out, end, n);
      if !ok {
        return;
      }
      if d.top == 0 {
        break;
      }
    }
    Finish(n, buf, o, end, out);
  }

  /** What to10 works with: a copy of b, room for remainders, and the divisor. */
  method startTen(b: MpInt) returns (d: MpInt, r: MpInt, billion: MpInt)
    requires b.Valid()
    ensures Dividing(d, r, billion) && r.p[0] == 0 && d.Mag() == b.Mag()
    ensures fresh(d) && fresh(d.p) && fresh(r) && fresh(r.p)
  {
    hide Val;
    d := mpcopy(b);
    r := new MpInt(0);
    billion := new MpInt.OfDigit(BILLION);
  }

  /** Writes the magnitude of b in base ten to the len characters of buf from o on, or fails if there is no room. */
  method to10(b: MpInt, buf: array<char>, o: nat, len: nat) returns (rv: int)
    requires b.Valid() && o + len <= buf.Length
    modifies buf
    ensures forall k :: 0 <= k < buf.Length && !(o <= k < o + len) ==> buf[k] == old(buf[k])
    ensures var t := N.Numeral(b.Mag(), 10);
      if |t| < len then rv == 0 && Holds(buf[..], o, t) else rv == -1
  {
    hide Val, N.Numeral, Dividing;
    if len < 1 {
      return -1;
    }
    var d, r, billion := startTen(b);
    var end := o + len - 1;
    buf[end] := '\0';
    var ok, out := tenLoop(d, r, billion, buf, o, end);
    if !ok {
      return -1;
    }
    ghost var t := buf[out..end];
    assert buf[out..end+1] == t + ['\0'];
    moveDown(buf, o, out, o + len - out);
    Moved(buf[..], o, t);
    rv := 0;
  }

  /** Moves n characters down to o. */
  method moveDown(buf: array<char>, o: nat, out: nat, n: nat)
    requires o <= out && out + n <= buf.Length
    modifies buf
    ensures buf[o..o+n] == old(buf[out..out+n])
    ensures forall j :: 0 <= j < buf.Length && !(o <= j < o + n) ==> buf[j] == old(buf[j])
  {
    ghost var t := buf[out..out+n];
    for k := 0 to n
      invariant forall j :: 0 <= j < k ==> buf[o+j] == t[j]
      invariant forall j :: k <= j < n ==> buf[out+j] == t[j]
      invariant forall j :: 0 <= j < buf.Length && !(o <= j < o + k) ==> buf[j] == old(buf[j])
    {
      buf[o+k] := buf[out+k];
    }
  }

  lemma Moved(buf: seq<char>, o: nat, t: string)
    requires o + |t| < |buf| && buf[o..o+|t|+1] == t + ['\0']
    ensures Holds(buf, o, t)
  {
    assert buf[o..o+|t|] == buf[o..o+|t|+1][..|t|];
    assert buf[o+|t|] == buf[o..o+|t|+1][|t|];
  }

  lemma TailFirst(n: nat)
    ensures Tail(n, n, [])
  {
  }

  lemma Billions(m: nat)
    ensures m == m / BILLION * BILLION + m % BILLION && (m > 0 ==> m / BILLION < m)
  {
  }

  lemma Finish(n: nat, buf: array<char>, o: nat, end: nat, out: nat)
    requires o <= out < end < buf.Length && Tail(n, 0, buf[out..end])
    ensures N.Numeral(n, 10) == buf[out..end]
  {
    TailDone(n, buf[out..end]);
  }

  // ----------------------------------------------------------- base sixteen

  /** p, and after it all of the digit x but its k low nibbles. */
  function High(p: nat, x: nat, k: nat): nat
    requires k <= 8
  {
    p * N.Power(16, 8 - k) + x / N.Power(16, k)
  }

  lemma DivTwice(x: nat, a: nat)
    requires a > 0
    ensures x / a / 16 == x / (16 * a)
  {
    var q, r := x / a, x % a;
    DivBounds(x, a);
    DivBounds(q, 16);
    assert x == q / 16 * (16 * a) + (q % 16 * a + r);
    MulMono(q % 16, 15, a);
    DivUnique(x, 16 * a, q / 16, q % 16 * a + r);
  }

  /** One more nibble. */
  lemma HighNext(p: nat, x: nat, k: nat)
    requires 0 < k <= 8
    ensures High(p, x, k - 1) == 16 * High(p, x, k) + x / N.Power(16, k - 1) % 16
  {
    var a := N.Power(16, k - 1);
    DivTwice(x, a);
    assert N.Power(16, 9 - k) == 16 * N.Power(16, 8 - k);
    assert p * (16 * N.Power(16, 8 - k)) == 16 * (p * N.Power(16, 8 - k));
  }

  lemma {:induction false} HighGrows(p: nat, x: nat, k: nat)
    requires k <= 8
    ensures High(p, x, k) <= High(p, x, 0)
  {
    if k > 0 {
      HighNext(p, x, k);
      HighGrows(p, x, k - 1);
    }
  }

  /** A digit is eight nibbles. */
  lemma HighEnds(p: nat, x: Digit)
    ensures High(p, x, 8) == p && High(p, x, 0) == p * BASE + x
  {
    assert N.Power(16, 2) == 256;
    assert N.Power(16, 4) == 256 * N.Power(16, 2);
    assert N.Power(16, 8) == 0x1_0000 * N.Power(16, 4) by {
      assert N.Power(16, 6) == 256 * N.Power(16, 4);
    }
    assert N.Power(16, 0) == 1;
  }

  lemma DigitsNext(v: nat, j: nat)
    requires j < 16
    ensures N.Digits(16 * v + j, 16) == if v == 0 && j == 0 then [] else N.Digits(v, 16) + [N.DigitChar(j)]
    ensures |N.Digits(v, 16)| > 0 <==> v > 0
  {
    assert (16 * v + j) / 16 == v && (16 * v + j) % 16 == j;
  }

  lemma FewerTimes(v: nat, n: nat, base: N.Base)
    requires v <= n
    ensures v / base <= n / base && (v > 0 ==> v / base < v)
  {
    if base == 10 {
      assert v / 10 <= n / 10;
    } else {
      assert v / 16 <= n / 16;
    }
  }

  lemma {:induction false} DigitsGrow(v: nat, n: nat, base: N.Base)
    requires v <= n
    ensures |N.Digits(v, base)| <= |N.Digits(n, base)|
  {
    if v > 0 {
      FewerTimes(v, n, base);
      DigitsGrow(v / base, n / base, base);
    }
  }

  /** The digits from i on, with the one before them. */
  lemma UpperValue(D: seq<Digit>, i: nat)
    requires i < |D|
    ensures Val(D[i..]) == Val(D[i+1..]) * BASE + D[i]
    ensures Val(D[i..]) <= Val(D)
  {
    hide Val;
    var t := D[i..];
    assert t[..1] == [D[i]] && t[1..] == D[i+1..];
    ValSplit(t, 1);
    ValOne(D[i]);
    ShiftUp(Val(D[i+1..]), 0);
    ShiftZero(Val(D[i+1..]));
    ValSplit(D, i);
    ShiftAtLeast(Val(t), i);
  }

  lemma ShiftAtLeast(x: nat, n: nat)
    ensures Shift(x, n) >= x
  {
    MulMono(1, BPow(n), x);
    assert x * BPow(n) == BPow(n) * x;
  }

  /** The nibbles of one digit, after what is already written. */
  method nibbles(x: Digit, buf: array<char>, o: nat, out0: nat, eout: nat, ghost p: nat, ghost n: nat) returns (ok: bool, out: nat)
    requires o <= out0 <= eout <= buf.Length && buf[o..out0] == N.Digits(p, 16) && p * BASE + x <= n
    modifies buf
    ensures forall k :: 0 <= k < buf.Length && !(o <= k < eout) ==> buf[k] == old(buf[k])
    ensures ok ==> o <= out <= eout && buf[o..out] == N.Digits(p * BASE + x, 16)
    ensures !ok ==> |N.Digits(n, 16)| > eout - o
  {
    hide N.Digits, N.DigitChar, N.Power, High;
    HighEnds(p, x);
    out := out0;
    for k := 8 downto 0
      invariant o <= out <= eout && buf[o..out] == N.Digits(High(p, x, k), 16)
      invariant forall k :: 0 <= k < buf.Length && !(o <= k < eout) ==> buf[k] == old(buf[k])
    {
      var j := x / N.Power(16, k) % 16;
      ghost var v, t := High(p, x, k + 1), buf[o..out];
      HighNext(p, x, k + 1);
      HighGrows(p, x, k);
      DigitsNext(v, j);
      DigitsGrow(High(p, x, k), n, 16);
      if j != 0 || out != o {
        if out >= eout {
          return false, out;
        }
        buf[out] := N.DigitChar(j);
        assert buf[o..out+1] == t + [N.DigitChar(j)];
        out := out + 1;
      }
    }
    ok := true;
  }

  /** Writes the magnitude of b in base sixteen to the len characters of buf from o on, or fails if there is no room. */
  method to16(b: MpInt, buf: array<char>, o: nat, len: nat) returns (rv: int)
    requires b.Valid() && o + len <= buf.Length
    modifies buf
    ensures forall k :: 0 <= k < buf.Length && !(o <= k < o + len) ==> buf[k] == old(buf[k])
    ensures var t := N.Numeral(b.Mag(), 16);
      if |t| < len then rv == 0 && Holds(buf[..], o, t) else rv == -1
  {
    hide Val, N.Digits, Holds;
    if len < 1 {
      return -1;
    }
    ghost var n, D := b.Mag(), b.p[..b.top];
    var out, eout := o, o + len;
    ValEmpty();
    NoDigits();
    for i := b.top downto 0
      invariant o <= out <= eout && buf[o..out] == N.Digits(Val(D[i..]), 16)
      invariant forall k :: 0 <= k < buf.Length && !(o <= k < eout) ==> buf[k] == old(buf[k])
    {
      UpperValue(D, i);
      var ok, next := nibbles(b.p[i], buf, o, out, eout, Val(D[i+1..]), n);
      if !ok {
        NumeralLonger(n, 16);
        return -1;
      }
      out := next;
    }
    assert D[0..] == D;
    if out == o {
      buf[out] := '0';
      out := out + 1;
    }
    NumeralOf(n);
    assert buf[o..out] == N.Numeral(n, 16);
    if out >= eout {
      return -1;
    }
    ghost var t := buf[o..out];
    buf[out] := '\0';
    assert buf[o..o+|t|+1] == t + ['\0'];
    Moved(buf[..], o, t);
    rv := 0;
  }

  lemma NoDigits()
    ensures N.Digits(0, 16) == []
  {
  }

  lemma NumeralLonger(n: nat, base: N.Base)
    ensures |N.Numeral(n, base)| >= |N.Digits(n, base)|
  {
  }

  lemma NumeralOf(n: nat)
    ensures N.Numeral(n, 16) == if N.Digits(n, 16) == [] then "0" else N.Digits(n, 16)
  {
  }

  // ------------------------------------------------------------------ mptoa

  /** The base a text is written in when base is asked for. */
  function TextBase(base: int): N.Base
  {
    if base == 10 then 10 else 16
  }

  /** A sign and a magnitude as text. */
  function Text(sign: int, n: nat, base: N.Base): string
  {
    (if sign < 0 then "-" else []) + N.Numeral(n, base)
  }

  lemma {:induction false} EightsArePow2(k: nat)
    ensures N.Eights(k) == Pow2(3 * k)
  {
    if k > 0 {
      EightsArePow2(k - 1);
      assert Pow2(3 * k) == 2 * Pow2(3 * k - 1);
      assert Pow2(3 * k - 1) == 2 * Pow2(3 * k - 2);
    }
  }

  /** mptoa allocates enough room, whatever the number and the base. */
  lemma AllocationSuffices(D: seq<Digit>, sign: int, base: N.Base)
    ensures |Text(sign, Val(D), base)| < ((|D| + 1) * DBITS + 2) / 3 + 1
  {
    hide Val, Pow2, N.Digits;
    var t := |D|;
    var k := (32 * t + 2) / 3;
    ValBound(D);
    BPowIsPow2(t);
    EightsArePow2(k);
    Pow2Add(32 * t, 3 * k - 32 * t);
    MulMono(1, Pow2(3 * k - 32 * t), Pow2(32 * t));
    N.DigitsShort(Val(D), k, base);
  }

  /** Writes b to buf, or to a new buffer. */
  method mptoa(b: MpInt, base: int, buf0: array?<char>, len0: nat) returns (r: array?<char>)
    requires b.Valid() && base != 32 && base != 64 && (buf0 != null ==> len0 <= buf0.Length)
    modifies if buf0 == null then {} else {buf0}
    ensures buf0 == null ==> r != null && fresh(r)
    ensures buf0 != null ==> r == if |Text(b.sign, b.Mag(), TextBase(base))| < len0 then buf0 else null
    ensures r != null ==> Holds(r[..], 0, Text(b.sign, b.Mag(), TextBase(base)))
  {
    hide Val, N.Numeral;
    ghost var t := N.Numeral(b.Mag(), TextBase(base));
    var len := len0;
    var buf: array<char>;
    if buf0 == null {
      len := ((b.top + 1) * DBITS + 2) / 3 + 1;
      buf := new char[len](_ => '\0');
      AllocationSuffices(b.p[..b.top], b.sign, TextBase(base));
    } else {
      buf := buf0;
    }
    if len < 2 {
      return null;
    }
    var out := 0;
    if b.sign < 0 {
      buf[out] := '-';
      out := out + 1;
      len := len - 1;
    }
    var rv: int;
    if base == 10 {
      rv := to10(b, buf, out, len);
    } else {
      rv := to16(b, buf, out, len);
    }
    if rv < 0 {
      return null;
    }
    SignedHolds(buf[..], b.sign, t);
    r := buf;
  }

  lemma SignedHolds(buf: seq<char>, sign: int, t: string)
    requires Holds(buf, if sign < 0 then 1 else 0, t) && (sign < 0 ==> buf[0] == '-')
    ensures Holds(buf, 0, (if sign < 0 then "-" else []) + t)
  {
    if sign < 0 {
      assert buf[0..1+|t|] == [buf[0]] + buf[1..1+|t|];
    } else {
      assert [] + t == t;
    }
  }
}
