/** Shifts of multi-precision integers by any number of bits, in either direction. */
module MpShift {
  import opened Digits
  import opened MpVec
  import opened MpInts

  function Pow2(n: nat): (p: nat)
    ensures p >= 1
  {
    if n == 0 then 1 else 2 * Pow2(n - 1)
  }

  lemma {:induction false} Pow2Add(m: nat, n: nat)
    ensures Pow2(m + n) == Pow2(m) * Pow2(n)
  {
    if n > 0 { Pow2Add(m, n - 1); }
  }

  lemma Pow2Word()
    ensures Pow2(32) == BASE && Pow2(31) == BASE / 2
  {
    assert Pow2(8) == 256;
    Pow2Add(8, 8);
    Pow2Add(16, 16);
    assert Pow2(32) == 2 * Pow2(31);
  }

  /** One digit is 32 bits, so d digits and l bits make a power of two. */
  lemma {:induction false} BPowIsPow2(d: nat)
    ensures BPow(d) == Pow2(32 * d)
  {
    if d > 0 {
      BPowIsPow2(d - 1);
      Pow2Add(32 * (d - 1), 32);
      Pow2Word();
    }
  }

  lemma ShiftBits(x: int, d: nat, l: nat)
    ensures Shift(x, d) * Pow2(l) == x * Pow2(32 * d + l)
  {
    BPowIsPow2(d);
    Pow2Add(32 * d, l);
    assert x * Pow2(32 * d) * Pow2(l) == x * (Pow2(32 * d) * Pow2(l));
  }

  lemma WordSplit(l: nat)
    requires l <= 32
    ensures Pow2(l) * Pow2(32 - l) == BASE
  {
    Pow2Add(l, 32 - l);
    Pow2Word();
  }

  /** x << l in a 32-bit word. */
  function Shl(x: Digit, l: nat): (r: Digit) { Wrap(x * Pow2(l)) }

  /** x >> r */
  function Shr(x: Digit, r: nat): (q: Digit)
    ensures q == x / Pow2(r)
  {
    var p := Pow2(r);
    assert 0 <= x / p <= x by { DivBounds(x, p); }
    x / p
  }

  lemma DivBounds(x: int, p: int)
    requires 0 <= x && 1 <= p
    ensures 0 <= x / p <= x
    ensures x == x / p * p + x % p
  {
    var q := x / p;
    assert x == q * p + x % p;
    if q < 0 { MulMono(q, -1, p); }
    if q > x { MulMono(x + 1, q, p); MulMono(1, p, x + 1); }
  }

  lemma WordAlg(x: int, p: int, r: int, q: int, m: int)
    requires p * r == BASE && x == q * r + m && 0 <= m < r && 0 <= x < BASE && 1 <= p
    ensures x * p == BASE * q + m * p
    ensures 0 <= m * p <= BASE - p && q < p
  {
    calc {
      x * p;
      { MulEq(x, q * r + m, p); }
      (q * r + m) * p;
      q * (p * r) + m * p;
    }
    MulMono(m, r - 1, p);
    MulMono(0, m, p);
    assert (r - 1) * p == p * r - p;
    if q >= p { MulMono(p, q, r); }
  }

  /** Shl keeps the low 32 - l bits, moved up; Shr takes the high l. */
  lemma WordShift(x: Digit, l: nat)
    requires 0 < l < 32
    ensures Shl(x, l) == x % Pow2(32 - l) * Pow2(l)
    ensures x * Pow2(l) == BASE * Shr(x, 32 - l) + Shl(x, l)
    ensures Shl(x, l) <= BASE - Pow2(l) && Shr(x, 32 - l) < Pow2(l)
  {
    hide Pow2, Wrap;
    WordSplit(l);
    var p, r := Pow2(l), Pow2(32 - l);
    var q, m := x / r, x % r;
    DivBounds(x, r);
    WordAlg(x, p, r, q, m);
    WrapTop(q, m * p);
  }

  lemma WrapTop(q: int, y: int)
    requires 0 <= y < BASE
    ensures Wrap(BASE * q + y) == y
  {
  }

  lemma ValPrepend(d: Digit, s: seq<Digit>)
    ensures Val([d] + s) == d + BASE * Val(s)
  {
    hide Val;
    ValConcat([d], s);
    ValOne(d);
    ShiftIsPow(0);
    assert BPow(1) == BASE * BPow(0);
  }

  // ------------------------------------------------------------------ mpleft

  /** The step of mpleft's downward loop; w is the value of the digits already moved. */
  lemma LeftStep(hi: seq<Digit>, w: int, last: Digit, cur: Digit, l: nat)
    requires 0 < l < 32
    requires BASE * Val(hi) + Shl(last, l) == w * Pow2(l)
    ensures Shl(last, l) + Shr(cur, 32 - l) < BASE
    ensures BASE * Val([Shl(last, l) + Shr(cur, 32 - l)] + hi) + Shl(cur, l) == (cur + BASE * w) * Pow2(l)
  {
    hide Val, Shl, Shr, Pow2;
    WordShift(last, l);
    WordShift(cur, l);
    ValPrepend(Shl(last, l) + Shr(cur, 32 - l), hi);
    var p := Pow2(l);
    assert (cur + BASE * w) * p == cur * p + BASE * (w * p);
  }

  /** d zero digits below the others. */
  lemma ValRaised(p: array<Digit>, d: nat, n: nat)
    requires d <= n <= p.Length && forall k :: 0 <= k < d ==> p[k] == 0
    ensures Val(p[..n]) == Shift(Val(p[d..n]), d)
  {
    hide Val, Shift;
    var s := p[..n];
    ValSplit(s, d);
    ValZeros(s[..d]);
    assert s[d..] == p[d..n];
  }

  /** Drops leading zero digits; unlike mpnorm it leaves the sign alone. */
  method TrimTop(res: MpInt)
    requires res.Shape()
    modifies res`top
    ensures res.Valid() && res.Mag() == old(res.Mag())
    ensures forall k :: res.top <= k < old(res.top) ==> res.p[k] == 0
  {
    hide Val;
    var t := res.top;
    while res.top > 0 && res.p[res.top-1] == 0
      invariant res.Shape() && res.top <= t
      invariant forall k :: res.top <= k < t ==> res.p[k] == 0
    {
      res.top := res.top - 1;
    }
    ValTrim(res.p[..t], res.top);
    assert res.p[..t][..res.top] == res.p[..res.top];
  }

  /** mpleft's loop for whole digits; res may be b. */
  method LeftByDigits(b: MpInt, otop: nat, d: nat, res: MpInt)
    requires Own(b, res) && otop <= b.p.Length && otop + d <= res.p.Length
    modifies res.p
    ensures res.p[d..d+otop] == old(b.p[..otop])
  {
    ghost var D := b.p[..otop];
    var i := otop;
    while i > 0
      invariant 0 <= i <= otop
      invariant forall k :: i <= k < otop ==> res.p[k+d] == D[k]
      invariant forall k :: 0 <= k < i ==> b.p[k] == D[k]
    {
      i := i - 1;
      res.p[i+d] := b.p[i];
    }
  }

  /** mpleft's loop for l more bits; res may be b. */
  method LeftByBits(b: MpInt, otop: nat, d: nat, l: nat, res: MpInt)
    requires Own(b, res) && otop <= b.p.Length && otop + d + 1 <= res.p.Length && 0 < l < 32
    modifies res.p
    ensures Val(res.p[d..d+otop+1]) == old(Val(b.p[..otop])) * Pow2(l)
  {
    hide Val, Pow2, Shl, Shr;
    ghost var D := b.p[..otop];
    var i := otop;
    var last: Digit := 0;
    ghost var hi: seq<Digit> := [];
    ShlZero(l);
    ValEmpty();
    while i > 0
      invariant 0 <= i <= otop && |hi| == otop - i
      invariant forall k :: 0 <= k < |hi| ==> res.p[d+i+1+k] == hi[k]
      invariant forall k :: 0 <= k < i ==> b.p[k] == D[k]
      invariant BASE * Val(hi) + Shl(last, l) == Val(D[i..]) * Pow2(l)
    {
      i := i - 1;
      var cur := b.p[i];
      LeftStep(hi, Val(D[i+1..]), last, cur, l);
      ValPrepend(cur, D[i+1..]);
      assert D[i..] == [cur] + D[i+1..];
      var z := Shl(last, l) + Shr(cur, 32 - l);    // the two words have no common bit
      res.p[i+d+1] := z;
      hi := [z] + hi;
      last := cur;
    }
    res.p[d] := Shl(last, l);
    assert res.p[d..d+otop+1] == [Shl(last, l)] + hi;
    ValPrepend(Shl(last, l), hi);
    assert D[0..] == D;
  }

  /** The digit moves of mpleft, for d digits and l bits; res may be b. */
  method LeftDigits(b: MpInt, otop: nat, d: nat, l: nat, res: MpInt)
    requires b.Shape() && res.Shape() && Own(b, res)
    requires otop <= b.p.Length && l < 32
    requires res.top == otop + d + (if l == 0 then 0 else 1)
    modifies res.p
    ensures res.Shape() && res.Mag() == old(Val(b.p[..otop])) * Pow2(32 * d + l)
  {
    hide Val, Pow2, Shl, Shr;
    ghost var v := Val(b.p[..otop]);
    if l == 0 {
      LeftByDigits(b, otop, d, res);
      Pow2Zero();
    } else {
      LeftByBits(b, otop, d, l, res);
    }
    ghost var hi := res.p[d..res.top];
    assert Val(hi) == v * Pow2(l);
    Clear(res.p, 0, d);
    assert res.p[d..res.top] == hi;
    ValRaised(res.p, d, res.top);
    LeftFinish(Val(res.p[d..res.top]), v, d, l);
  }

  lemma ShlZero(l: nat)
    ensures Shl(0, l) == 0
  {
  }

  lemma Pow2Zero()
    ensures Pow2(0) == 1
  {
  }

  lemma LeftFinish(f: int, v: int, d: nat, l: nat)
    requires f == v * Pow2(l)
    ensures Shift(f, d) == v * Pow2(32 * d + l)
  {
    ShiftBits(v, d, l);
    assert v * Pow2(l) * BPow(d) == v * BPow(d) * Pow2(l);
  }

  method mpleft(b: MpInt, shift: int, res: MpInt)
    requires b.Shape() && res.Shape() && Own(b, res)
    modifies res, res.p
    ensures res.Valid() && (shift >= 0 ==> res.sign == old(b.sign))
    ensures res.p == old(res.p) || fresh(res.p)
    ensures res.p.Length >= old(res.p.Length)
    ensures shift >= 0 ==> res.Mag() == old(b.Mag()) * Pow2(shift)
    ensures shift < 0 ==> res.Mag() == old(b.Mag()) / Pow2(-shift)
    decreases shift < 0
  {
    hide Val, Pow2;
    res.sign := b.sign;
    if b.top == 0 {
      res.top := 0;
      ValEmpty();
      ZeroShifted(if shift < 0 then -shift else shift);
      return;
    }
    if shift < 0 {
      mpright(b, -shift, res);
      return;
    }
    var otop := b.top;
    ghost var D := b.p[..otop];
    mpbits(res, otop * DBITS + shift);
    var d := shift / DBITS;
    var l := shift - d * DBITS;
    res.top := DigitsFor(otop * DBITS + shift);
    assert b.p[..otop] == D;
    LeftDigits(b, otop, d, l, res);
    TrimTop(res);
  }

  lemma ZeroShifted(n: nat)
    ensures 0 * Pow2(n) == 0 && 0 / Pow2(n) == 0
  {
  }

  // ----------------------------------------------------------------- mpright

  lemma DivUnique(n: int, m: int, q: int, r: int)
    requires n == q * m + r && 0 <= r < m
    ensures n / m == q
  {
    var q', r' := n / m, n % m;
    assert n == q' * m + r';
    if q' < q { MulMono(q' + 1, q, m); }
    if q' > q { MulMono(q + 1, q', m); }
  }

  lemma RightAlg(p: int, q: int, m: int, u: int, cur: int, t: int, i: nat)
    requires p * q == BASE && t == m * q && cur == u * p + m
    ensures p * Shift(t, i) + p * Shift(u, i + 1) == Shift(cur, i + 1)
  {
    hide Shift, BPow;
    ShiftScale(p, t, i);
    ShiftScale(p, u, i + 1);
    ShiftUp(m, i);
    ShiftLinear(m, p * u, i + 1);
    assert p * (m * q) == m * (p * q);
  }

  lemma RightStep(s: int, i: nat, last: Digit, cur: Digit, r: nat, low: int, e: int)
    requires 0 < r < 32
    requires Pow2(r) * (s + Shift(Shr(last, r), i)) + low == e
    ensures Shl(cur, 32 - r) + Shr(last, r) < BASE
    ensures Pow2(r) * (s + Shift(Shl(cur, 32 - r) + Shr(last, r), i) + Shift(Shr(cur, r), i + 1)) + low == e + Shift(cur, i + 1)
  {
    hide Shift, Shl, Shr, Pow2, BPow;
    var p, q := Pow2(r), Pow2(32 - r);
    WordShift(cur, 32 - r);
    WordShift(last, 32 - r);
    WordSplit(r);
    DivBounds(cur, p);
    var t, u, z := Shl(cur, 32 - r), Shr(cur, r), Shr(last, r);
    RightAlg(p, q, cur % p, u, cur, t, i);
    ShiftLinear(t, z, i);
    Distribute3(p, s + Shift(z, i), Shift(t, i), Shift(u, i + 1));
  }

  lemma Distribute3(p: int, x: int, y: int, z: int)
    ensures p * (x + y + z) == p * x + p * y + p * z
  {
  }

  /** e in parts: q times p, and what is left. */
  predicate InParts(e: int, p: int, q: int, low: int)
  {
    p * q + low == e && 0 <= low < p
  }

  /** x without its low n bits. */
  function HighBits(x: int, n: nat): int
  {
    x / Pow2(n)
  }

  function LowBits(x: Digit, r: nat): int
  {
    x % Pow2(r)
  }

  /** Dividing by 2^(32d + r) drops d digits and then divides by 2^r. */
  lemma RightFinish(D: seq<Digit>, d: nat, r: nat, q: int, low: int)
    requires d <= |D|
    requires InParts(Val(D[d..]), Pow2(r), q, low)
    ensures HighBits(Val(D), 32 * d + r) == q
  {
    hide Val, Shift, Pow2, BPow;
    ValSplit(D, d);
    ValBound(D[..d]);
    BPowIsPow2(d);
    Pow2Add(32 * d, r);
    ShiftIsProduct(Val(D[d..]), d);
    DroppedAlg(Val(D), Val(D[d..]), Pow2(r), BPow(d), q, low, Val(D[..d]));
  }

  lemma DroppedAlg(x: int, e: int, p: int, w: int, q: int, low: int, lo: int)
    requires x == lo + e * w && 0 <= lo < w && p * q + low == e && 0 <= low < p
    ensures w * p > 0 && x / (w * p) == q
  {
    assert (p * q + low) * w == q * (w * p) + low * w;
    assert low * w + lo < w * p by {
      MulMono(low + 1, p, w);
      assert (low + 1) * w == low * w + w;
    }
    MulMono(0, low, w);
    DivUnique(x, w * p, q, low * w + lo);
  }

  /** Whole digits dropped. */
  lemma DigitsDropped(D: seq<Digit>, d: nat)
    requires d <= |D|
    ensures HighBits(Val(D), 32 * d) == Val(D[d..])
  {
    hide Val, Pow2;
    Pow2Zero();
    RightFinish(D, d, 0, Val(D[d..]), 0);
  }

  lemma ShiftIsProduct(x: int, d: nat)
    ensures Shift(x, d) == x * BPow(d)
  {
  }

  /** mpright's loop for whole digits; res may be b. */
  method RightByDigits(b: MpInt, d: nat, n: nat, res: MpInt)
    requires Own(b, res) && d + n <= b.p.Length && n <= res.p.Length
    modifies res.p
    ensures res.p[..n] == old(b.p[d..d+n])
  {
    ghost var E := b.p[d..d+n];
    var i := 0;
    while i < n
      invariant 0 <= i <= n
      invariant forall k :: 0 <= k < i ==> res.p[k] == E[k]
      invariant forall k :: i <= k < n ==> b.p[k+d] == E[k]
    {
      res.p[i] := b.p[i+d];
      i := i + 1;
    }
  }

  /** What has been shifted, the digit at hand with it, and the bits that fell out make the digits read so far. */
  ghost predicate RightSoFar(E: seq<Digit>, S: seq<Digit>, r: nat, low: nat, i: nat)
  {
    0 < r < 32 && i < |E| && |S| == i && Pow2(r) * (Val(S) + Shift(Shr(E[i], r), i)) + low == Val(E[..i+1])
  }

  lemma RightFirst(E: seq<Digit>, r: nat)
    requires 0 < r < 32 && |E| > 0
    ensures 0 <= LowBits(E[0], r) && RightSoFar(E, [], r, LowBits(E[0], r), 0)
  {
    hide Val, Pow2, Shl, Shr, Shift, BPow;
    DivBounds(E[0], Pow2(r));
    ShiftZero(Shr(E[0], r)); ValEmpty();
    assert E[..1] == [E[0]];
    ValOne(E[0]);
  }

  lemma WordsFit(last: Digit, cur: Digit, r: nat)
    requires 0 < r < 32
    ensures Shl(cur, 32 - r) + Shr(last, r) < BASE
  {
    hide Shl, Shr, Pow2, Shift;
    RightStep(0, 0, last, cur, r, 0, Pow2(r) * Shift(Shr(last, r), 0));
  }

  lemma RightMore(E: seq<Digit>, S: seq<Digit>, r: nat, low: nat, i: nat, z: Digit)
    requires RightSoFar(E, S, r, low, i) && i + 1 < |E| && z == Shl(E[i+1], 32 - r) + Shr(E[i], r)
    ensures RightSoFar(E, S + [z], r, low, i + 1)
  {
    hide Val, Pow2, Shl, Shr, Shift, BPow;
    RightStep(Val(S), i, E[i], E[i+1], r, low, Val(E[..i+1]));
    ValPrefix(E, i + 1);
    ValAppend(S, z);
  }

  lemma RightLast(E: seq<Digit>, S: seq<Digit>, r: nat, low: nat, i: nat)
    requires RightSoFar(E, S, r, low, i) && i + 1 == |E| && low == LowBits(E[0], r)
    ensures InParts(Val(E), Pow2(r), Val(S + [Shr(E[i], r)]), low)
  {
    hide Val, Pow2, Shl, Shr, Shift, BPow;
    assert E[..i+1] == E;
    ValAppend(S, Shr(E[i], r));
  }

  /** mpright's loop for r more bits; res may be b. */
  method RightByBits(b: MpInt, d: nat, n: nat, r: nat, res: MpInt)
    requires Own(b, res) && 1 <= n && d + n <= b.p.Length && n <= res.p.Length && 0 < r < 32
    modifies res.p
    ensures InParts(old(Val(b.p[d..d+n])), Pow2(r), Val(res.p[..n]), LowBits(old(b.p[d]), r))
  {
    hide Val, Pow2, Shl, Shr, InParts, RightSoFar, LowBits;
    ghost var E := b.p[d..d+n];
    var i := 0;
    var last := b.p[d];
    ghost var S: seq<Digit> := [];
    RightFirst(E, r);
    ghost var low: nat := LowBits(E[0], r);
    while i < n - 1
      invariant 0 <= i <= n - 1 && |S| == i && last == E[i]
      invariant forall k :: 0 <= k < i ==> res.p[k] == S[k]
      invariant forall k :: i < k < n ==> b.p[k+d] == E[k]
      invariant RightSoFar(E, S, r, low, i)
    {
      var cur := b.p[i+d+1];
      assert cur == b.p[(i+1)+d] == E[i+1];
      WordsFit(last, cur, r);
      var z := Shl(cur, 32 - r) + Shr(last, r);     // the two words have no common bit
      RightMore(E, S, r, low, i, z);
      res.p[i] := z;
      S := S + [z];
      last := cur;
      i := i + 1;
    }
    res.p[i] := Shr(last, r);
    RightLast(E, S, r, low, i);
    assert res.p[..n] == S + [Shr(last, r)];
  }

  lemma DroppedDigits(D: seq<Digit>, d: nat, E: seq<Digit>, S: seq<Digit>)
    requires d <= |D| && E == D[d..] && S == E
    ensures Val(S) == HighBits(Val(D), 32 * d)
  {
    hide Val, HighBits;
    DigitsDropped(D, d);
  }

  lemma DroppedBits(D: seq<Digit>, d: nat, E: seq<Digit>, r: nat, S: seq<Digit>, low: int)
    requires d <= |D| && E == D[d..] && InParts(Val(E), Pow2(r), Val(S), low)
    ensures Val(S) == HighBits(Val(D), 32 * d + r)
  {
    hide Val, HighBits, InParts, Pow2;
    RightFinish(D, d, r, Val(S), low);
  }

  /** The digit moves of mpright, for d < b.top digits and r bits; res may be b. */
  method RightDigits(b: MpInt, d: nat, r: nat, res: MpInt) returns (i: nat)
    requires b.Shape() && res.Shape() && Own(b, res)
    requires d < b.top && r < 32 && b.top - d <= res.p.Length
    modifies res.p
    ensures i == old(b.top) - d
    ensures Val(res.p[..i]) == HighBits(old(b.Mag()), 32 * d + r)
  {
    hide Val, Pow2, InParts, LowBits, HighBits;
    i := b.top - d;
    ghost var D, E, low := b.p[..b.top], b.p[d..d+i], LowBits(b.p[d], r);
    assert E == D[d..];
    if r == 0 {
      RightByDigits(b, d, i, res);
      DroppedDigits(D, d, E, res.p[..i]);
    } else {
      RightByBits(b, d, i, r, res);
      DroppedBits(D, d, E, r, res.p[..i], low);
    }
  }

  method mpright(b: MpInt, shift: int, res: MpInt)
    requires b.Shape() && res.Shape() && Own(b, res)
    modifies res, res.p
    ensures res.Valid()
    ensures shift >= 0 && old(b.top) > 0 ==> res.sign == if res.top == 0 && shift / DBITS < old(b.top) then 1 else old(b.sign)
    ensures res.p == old(res.p) || fresh(res.p)
    ensures res.p.Length >= old(res.p.Length)
    ensures shift >= 0 ==> res.Mag() == old(b.Mag()) / Pow2(shift)
    ensures shift < 0 ==> res.Mag() == old(b.Mag()) * Pow2(-shift)
    ensures res == b && 0 <= shift < DBITS && old(b.Clean()) ==> res.Clean()
    ensures 0 <= shift < DBITS && old(b.top) > 0 && res.top == 0 ==> res.p.Length > 0 && res.p[0] == 0
    decreases shift < 0
  {
    hide Val, Pow2;
    res.sign := b.sign;
    if b.top == 0 {
      res.top := 0;
      ValEmpty();
      ZeroShifted(if shift < 0 then -shift else shift);
      return;
    }
    if shift < 0 {
      mpleft(b, -shift, res);
      return;
    }
    ghost var D := b.p[..b.top];
    if res != b { mpbits(res, b.top * DBITS - shift); }
    var d := shift / DBITS;
    var r := shift - d * DBITS;
    assert b.p[..b.top] == D;
    if d >= b.top {
      res.top := 0;
      ValEmpty();
      AllShiftedOut(D, shift);
      return;
    }
    var i := RightDigits(b, d, r, res);
    res.top := i;
    TrimTop(res);
    if res.top == 0 { res.sign := 1; }
  }

  lemma AllShiftedOut(D: seq<Digit>, shift: nat)
    requires |D| <= shift / 32
    ensures Val(D) / Pow2(shift) == 0
  {
    hide Val, Pow2;
    ValBound(D);
    BPowIsPow2(|D|);
    Pow2Add(32 * |D|, shift - 32 * |D|);
    MulMono(1, Pow2(shift - 32 * |D|), Pow2(32 * |D|));
    DivUnique(Val(D), Pow2(shift), 0, Val(D));
  }
}
