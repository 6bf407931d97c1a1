/** Division of multi-precision integers: Knuth, Seminumerical Algorithms, Algorithm D. */
module MpDiv {
  import opened Digits
  import opened MpVec
  import opened MpInts
  import opened MpShift

  // --------------------------------------------------------------- mpdigdiv

  /** Halving the divisor once more, in the loop of mpdigdiv. */
  lemma HalveAgain(d: Digit, k: nat)
    ensures d / Pow2(k) / 2 == d / Pow2(k + 1)
  {
    var p := Pow2(k);
    var x := d / p;
    DivBounds(d, p);
    assert d == x / 2 * (2 * p) + (x % 2 * p + d % p) by {
      var h, b := x / 2, x % 2;
      assert (2 * h + b) * p == h * (2 * p) + b * p;
    }
    assert 0 <= x % 2 * p <= p by { MulMono(x % 2, 1, p); MulMono(0, x % 2, p); }
    DivUnique(d, 2 * p, x / 2, x % 2 * p + d % p);
  }

  /** d moved up by i bits, as two digits. */
  lemma TwoDigitShift(d: Digit, i: nat)
    requires i < 32
    ensures d / Pow2(32 - i) * BASE + Wrap(d * Pow2(i)) == d * Pow2(i)
  {
    if i == 0 {
      Pow2Word();
      DivUnique(d, BASE, 0, d);
    } else {
      WordShift(d, i);
    }
  }

  lemma SubtractShifted(n: int, q: int, d: int, p: int, rem: int)
    requires rem == n - q * d
    ensures rem - d * p == n - (q + p) * d
  {
  }

  /** Two digits by one, saturating at the largest digit. */
  method mpdigdiv(dividend: array<Digit>, o: nat, divisor: Digit) returns (quotient: Digit)
    requires o + 1 < dividend.Length
    ensures dividend[o+1] < divisor ==> quotient == (dividend[o+1] * BASE + dividend[o]) / divisor
    ensures dividend[o+1] >= divisor ==> quotient == BASE - 1
  {
    hide Pow2, Wrap;
    var hi: int, lo: int := dividend[o+1], dividend[o];
    if hi >= divisor || divisor == 0 {
      return BASE - 1;
    }
    ghost var n := hi * BASE + lo;
    var q, x, i := 0, divisor, 31;
    Pow2Word(); Pow2Zero();
    DivUnique(divisor, 1, divisor, 0);
    while hi > 0 && i >= 0
      invariant -1 <= i <= 31 && 0 <= hi < BASE && 0 <= lo < BASE && 0 <= q
      invariant x == divisor / Pow2(31 - i)
      invariant hi * BASE + lo == n - q * divisor
      invariant hi * BASE + lo < divisor * Pow2(i + 1)
      decreases i
    {
      HalveAgain(divisor, 31 - i);
      TwoDigitShift(divisor, i);
      x := x / 2;
      var y := Wrap(divisor * Pow2(i));
      if x > hi || (x == hi && y > lo) {
        i := i - 1;
        continue;
      }
      SubtractShifted(n, q, divisor, Pow2(i), hi * BASE + lo);
      DoublePow(divisor, i);
      if y > lo { hi := hi - 1; }
      WrapDiff(lo, y);
      lo := Wrap(lo - y);
      hi := hi - x;
      q := q + Pow2(i);          // bit i of q is still clear
      i := i - 1;
    }
    if hi > 0 { SmallRemainder(hi, lo, divisor); }
    DivBounds(lo, divisor);
    FinalQuotient(n, q, divisor, lo);
    quotient := q + lo / divisor;
  }

  lemma DoublePow(d: int, i: nat)
    ensures d * Pow2(i + 1) == 2 * (d * Pow2(i))
  {
  }

  lemma WrapDiff(lo: Digit, y: Digit)
    ensures Wrap(lo as int - y) == if y > lo then lo - y + BASE else lo - y
  {
  }

  lemma SmallRemainder(hi: int, lo: int, d: Digit)
    requires hi > 0 && lo >= 0
    ensures hi * BASE + lo >= d * Pow2(0)
  {
  }

  lemma FinalQuotient(n: int, q: int, d: Digit, lo: Digit)
    requires d > 0 && n == q * d + lo && 0 <= n < d * BASE && 0 <= q
    ensures n / d == q + lo / d && 0 <= n / d < BASE
  {
    DivBounds(lo, d);
    var k := q + lo / d;
    assert n == k * d + lo % d by { assert k * d == q * d + lo / d * d; }
    DivUnique(n, d, k, lo % d);
    if k >= BASE { MulMono(BASE, k, d); }
  }

  // ------------------------------------------------------- the trial digit

  /** Step D3: dividing leading parts never gives less than the true digit. */
  lemma TrialNotBelow(q: int, v: int, w: int, p: int, vLead: int, wLead: int)
    requires 0 <= q && q * v <= w && p >= 1
    requires vLead * p <= v && w < (wLead + 1) * p
    ensures q * vLead <= wLead
  {
    MulMono(vLead * p, v, q);
    assert q * vLead * p == vLead * p * q;
    if q * vLead >= wLead + 1 { MulMono(wLead + 1, q * vLead, p); }
  }

  /** After the D3a loop the digit is at most one too large. */
  lemma TrialNotFarAbove(q: int, qd: int, v: int, w: int, p: int, vLead: int, wLead: int)
    requires 0 <= q && 0 <= qd < BASE && p >= 1 && w < (q + 1) * v
    requires qd * vLead <= wLead && wLead * p <= w
    requires v <= (vLead + 1) * p && BASE * p <= v
    ensures qd <= q + 1
  {
    if qd > q + 1 {
      MulMono(v, (vLead + 1) * p, qd);
      MulMono(qd * vLead, wLead, p);
      assert (vLead + 1) * p * qd == qd * vLead * p + qd * p;
      MulMono(qd, BASE, p);
      assert (q + 2) * v == (q + 1) * v + v;
      assert v * qd == qd * v;
      MulMono(q + 2, qd, v);
    }
  }

  /** The digits of s from i on, with the lower ones as a remainder below BASE^i. */
  lemma LeadOf(s: seq<Digit>, i: nat)
    requires i <= |s|
    ensures Val(s[i..]) * BPow(i) <= Val(s) < (Val(s[i..]) + 1) * BPow(i)
  {
    hide Val, BPow;
    ValSplit(s, i);
    ValBound(s[..i]);
    var x, p := Val(s[i..]), BPow(i);
    assert (x + 1) * p == x * p + p;
  }

  lemma TwoDigits(s: seq<Digit>)
    requires |s| == 2
    ensures Val(s) == s[1] * BASE + s[0]
  {
    hide Val;
    assert s == [s[0]] + [s[1]];
    ValPrepend(s[0], [s[1]]);
    ValOne(s[1]);
  }

  /** The true digit of a window: its value divided by the divisor's. */
  function Quotient(w: int, v: int): int
    requires v > 0
  {
    w / v
  }

  lemma DigitQuotient(w: int, v: int)
    requires v > 0 && 0 <= w < v * BASE
    ensures var q := Quotient(w, v); 0 <= q < BASE && q * v <= w < (q + 1) * v
  {
    DivBounds(w, v);
    var q := w / v;
    assert (q + 1) * v == q * v + v;
    if q >= BASE { MulMono(BASE, q, v); }
  }

  lemma QuotientUnique(w: int, v: int, q: int, r: int)
    requires v > 0 && w == r + v * q && 0 <= r < v
    ensures w / v == q == Quotient(w, v) && w % v == r
  {
    DivUnique(w, v, q, r);
  }

  /** Step D3 for a divisor of any length: W is the window's value, qd the quotient of leading digits. */
  lemma FirstTrial(W: seq<Digit>, D: seq<Digit>, qd: Digit)
    requires |W| == |D| + 1 && |D| >= 1 && D[|D|-1] != 0
    requires Val(W) < Val(D) * BASE && Val(D) > 0
    requires var n := |D|;
      qd == if W[n] < D[n-1] then (W[n] * BASE + W[n-1]) / D[n-1] else BASE - 1
    ensures Quotient(Val(W), Val(D)) <= qd
  {
    hide Val, BPow, Quotient;
    var n, w, v := |D|, Val(W), Val(D);
    var q := Quotient(w, v);
    DigitQuotient(w, v);
    if W[n] < D[n-1] {
      LeadOf(W, n - 1);
      LeadOf(D, n - 1);
      assert D[n-1..] == [D[n-1]];
      ValOne(D[n-1]);
      TwoDigits(W[n-1..]);
      var w2 := W[n] * BASE + W[n-1];
      TrialNotBelow(q, v, w, BPow(n - 1), D[n-1], w2);
      QuotientAtLeast(w2, D[n-1], q);
    }
  }

  lemma QuotientAtLeast(w: int, v: int, q: int)
    requires v > 0 && q * v <= w && 0 <= w
    ensures q <= w / v
  {
    DivBounds(w, v);
    if w / v < q {
      MulMono(w / v + 1, q, v);
    }
  }

  /** Step D3 for a one-digit divisor, which has no D3a. */
  lemma OneDigitTrial(W: seq<Digit>, D: seq<Digit>, qd: Digit)
    requires |W| == 2 && |D| == 1 && D[0] != 0
    requires Val(W) < Val(D) * BASE
    requires qd == if W[1] < D[0] then (W[1] * BASE + W[0]) / D[0] else BASE - 1
    ensures Quotient(Val(W), Val(D)) == qd
  {
    hide Val, BPow;
    assert D == [D[0]];
    ValOne(D[0]);
    TwoDigits(W);
  }

  /** Step D3a: what its three-digit comparison says about the true digit. */
  lemma RefineTrial(W: seq<Digit>, D: seq<Digit>, qd: Digit)
    requires |W| == |D| + 1 && |D| >= 2 && D[|D|-1] != 0
    requires Val(W) < Val(D) * BASE && Val(D) > 0 && Quotient(Val(W), Val(D)) <= qd
    ensures var n, q := |D|, Quotient(Val(W), Val(D));
      var over := qd * Val(D[n-2..]) > Val(W[n-2..]);
      (over ==> q < qd) && (!over ==> qd <= q + 1)
  {
    hide Val, BPow, Quotient;
    var n, w, v := |D|, Val(W), Val(D);
    var q := Quotient(w, v);
    DigitQuotient(w, v);
    LeadOf(W, n - 2);
    LeadOf(D, n - 2);
    var p, vLead, wLead := BPow(n - 2), Val(D[n-2..]), Val(W[n-2..]);
    if qd * vLead > wLead {
      TrialNotBelow(q, v, w, p, vLead, wLead);
    } else {
      ValLead(D);
      BPowUp(n - 2);
      TrialNotFarAbove(q, qd, v, w, p, vLead, wLead);
    }
  }

  lemma BPowUp(n: nat)
    ensures BPow(n + 1) == BASE * BPow(n)
  {
  }

  /** The test of step D3a: the two leading divisor digits times qd against three digits of u. */
  method TooLarge(u: array<Digit>, j: nat, v: array<Digit>, vn: nat, qd: Digit, t: array<Digit>) returns (over: bool)
    requires 2 <= vn <= v.Length && 3 <= j <= u.Length
    requires t.Length >= 3 && t != u && t != v
    modifies t
    ensures over <==> qd * Val(v[vn-2..vn]) > Val(u[j-3..j])
  {
    hide Val;
    Clear(t, 0, 3);
    ValZeros(t[0..0+2]);
    ghost var V2 := v[vn-2..vn];
    assert v[vn-2..vn-2+2] == V2;
    mpvecdigmuladd(v, vn - 2, 2, qd, t, 0);
    var c := mpveccmp(t, 0, 3, u, j - 3, 3);
    assert t[0..0+2+1] == t[0..0+3] && u[j-3..j-3+3] == u[j-3..j];
    over := c > 0;
  }

  lemma FirstAt(u: array<Digit>, j: nat, v: array<Digit>, vn: nat, qd: Digit)
    requires vn >= 1 && vn < j <= u.Length && vn <= v.Length && v[vn-1] != 0
    requires 0 < Val(v[..vn]) && Val(u[j-1-vn..j]) < Val(v[..vn]) * BASE
    requires qd == if u[j-1] < v[vn-1] then (u[j-1] * BASE + u[j-2]) / v[vn-1] else BASE - 1
    ensures var q := Quotient(Val(u[j-1-vn..j]), Val(v[..vn])); 0 <= q <= qd && (vn == 1 ==> q == qd)
  {
    hide Val, BPow, Quotient;
    var W, D := u[j-1-vn..j], v[..vn];
    assert |W| == vn + 1 && |D| == vn && W[vn] == u[j-1] && W[vn-1] == u[j-2] && D[vn-1] == v[vn-1];
    FirstTrial(W, D, qd);
    DigitQuotient(Val(W), Val(D));
    if vn == 1 { OneDigitTrial(W, D, qd); }
  }

  lemma RefineAt(u: array<Digit>, j: nat, v: array<Digit>, vn: nat, qd: Digit)
    requires vn >= 2 && vn < j <= u.Length && vn <= v.Length && v[vn-1] != 0
    requires 0 < Val(v[..vn]) && Val(u[j-1-vn..j]) < Val(v[..vn]) * BASE
    requires Quotient(Val(u[j-1-vn..j]), Val(v[..vn])) <= qd
    ensures var q, over := Quotient(Val(u[j-1-vn..j]), Val(v[..vn])), qd * Val(v[vn-2..vn]) > Val(u[j-3..j]);
      (over ==> q < qd) && (!over ==> qd <= q + 1)
  {
    hide Val, BPow, Quotient;
    var W, D := u[j-1-vn..j], v[..vn];
    assert |W| == vn + 1 && |D| == vn && D[vn-1] == v[vn-1];
    RefineTrial(W, D, qd);
    assert v[vn-2..vn] == D[vn-2..] && u[j-3..j] == W[vn-2..];
  }

  /** Steps D3 and D3a for the window u[j-1-vn..j]. */
  method TrialDigit(u: array<Digit>, j: nat, v: array<Digit>, vn: nat, t: array<Digit>) returns (qd: Digit)
    requires vn >= 1 && vn < j <= u.Length && vn <= v.Length && v[vn-1] != 0
    requires t.Length >= 3 && t != u && t != v
    requires 0 < Val(v[..vn]) && Val(u[j-1-vn..j]) < Val(v[..vn]) * BASE
    modifies t
    ensures var q := Quotient(Val(u[j-1-vn..j]), Val(v[..vn])); q <= qd <= q + 1
  {
    hide Val, BPow, Quotient;
    ghost var q := Quotient(Val(u[j-1-vn..j]), Val(v[..vn]));
    qd := mpdigdiv(u, j - 2, v[vn-1]);
    FirstAt(u, j, v, vn, qd);
    if vn == 1 {
      return;
    }
    var over := true;
    while over
      invariant q <= qd
      invariant over || qd <= q + 1
      decreases qd, over
    {
      RefineAt(u, j, v, vn, qd);
      over := TooLarge(u, j, v, vn, qd, t);
      if over { qd := qd - 1; }
    }
  }

  // ------------------------------------------------- one digit of the quotient

  /** Step D6: adding the divisor back cancels the borrow and leaves the carry digit at 1. */
  lemma AddedBack(R: seq<Digit>, n: nat, x: int, v: int)
    requires |R| == n + 1 && Val(R) == x + BPow(n) + v
    requires 0 <= x + v < BPow(n)
    ensures Val(R[..n]) == x + v
  {
    hide Val, BPow, Shift;
    ValSplit(R, n);
    assert R[n..] == [R[n]];
    ValOne(R[n]);
    ValBound(R[..n]);
    ShiftIsPow(n);
    if R[n] < 1 { ShiftMono(R[n], 0, n); ShiftZero(0); }
    if R[n] > 1 { ShiftMono(2, R[n], n); ShiftLinear(1, 1, n); }
  }

  lemma QuotientDigit(w: int, v: int, qd: int)
    requires v > 0 && 0 <= w && Quotient(w, v) <= qd <= Quotient(w, v) + 1
    ensures qd * v <= w ==> qd == Quotient(w, v) && w - qd * v < v
    ensures qd * v > w ==> qd == Quotient(w, v) + 1 && 0 <= w - (qd - 1) * v < v && w - qd * v < 0
  {
    DivBounds(w, v);
    var q := w / v;
    assert (q + 1) * v == q * v + v;
  }

  /** Steps D3 to D6: the window becomes the remainder, the result is the quotient digit. */
  method DivideStep(u: array<Digit>, j: nat, v: array<Digit>, vn: nat, t: array<Digit>) returns (qd: Digit)
    requires vn >= 1 && vn < j < u.Length && vn <= v.Length && v[vn-1] != 0
    requires t.Length >= 3 && t != u && t != v && u != v
    requires 0 < Val(v[..vn]) && Val(u[j-1-vn..j]) < Val(v[..vn]) * BASE
    modifies u, t
    ensures qd == Quotient(old(Val(u[j-1-vn..j])), Val(v[..vn]))
    ensures Val(u[j-1-vn..j]) == old(Val(u[j-1-vn..j])) - qd * Val(v[..vn])
    ensures Val(u[j-1-vn..j]) < Val(v[..vn])
    ensures forall k :: 0 <= k < u.Length && !(j - 1 - vn <= k <= j) ==> u[k] == old(u[k])
  {
    hide Val, BPow, Quotient;
    ghost var D := v[..vn];
    ghost var w, d := Val(u[j-1-vn..j]), Val(D);
    qd := TrialDigit(u, j, v, vn, t);
    QuotientDigit(w, d, qd);
    var o := j - 1 - vn;
    assert u[o..o+vn+1] == u[j-1-vn..j] && v[0..0+vn] == D;
    var sign := mpvecdigmulsub(v, 0, vn, qd, u, o);
    assert v[..vn] == D;
    assert u[o..o+vn+1] == u[j-1-vn..j];
    if sign < 0 {
      ghost var W1 := u[o..o+(vn+1)];
      assert W1 == u[o..o+vn+1];
      assert v[0..0+vn] == D;
      mpvecadd(u, o, vn + 1, v, 0, vn, u, o);
      ghost var R := u[o..o+(vn+1)+1];
      ValBound(D);
      BPowUp(vn);
      LessTwice(w, d, qd);
      AddedBack(R, vn + 1, w - qd * d, d);
      assert R[..vn+1] == u[j-1-vn..j];
      qd := qd - 1;
    }
  }

  lemma LessTwice(w: int, d: int, qd: int)
    ensures w - qd * d + d == w - (qd - 1) * d
  {
  }

  // ------------------------------------------------------- the digit loop

  lemma LoopAlg(u0: int, low: int, w: int, d: int, qd: int, o: nat, q: int, w': int)
    requires w' == w - qd * d
    requires u0 == low + Shift(w, o) + d * Shift(q, o + 1)
    ensures u0 == low + Shift(w', o) + d * Shift(qd + BASE * q, o)
  {
    hide Shift, BPow;
    ShiftLinear(w, qd * d, o);
    ShiftScale(d, qd, o);
    ShiftUp(q, o);
    ShiftLinear(qd, BASE * q, o);
    assert d * (Shift(qd, o) + Shift(BASE * q, o)) == d * Shift(qd, o) + d * Shift(BASE * q, o);
    assert qd * d == d * qd;
  }

  lemma WindowFits(W: seq<Digit>, d: int)
    requires |W| >= 1 && Val(W[1..]) < d
    ensures Val(W) < d * BASE
  {
    hide Val;
    assert W == [W[0]] + W[1..];
    ValPrepend(W[0], W[1..]);
  }

  /** After a turn the window's top digit is zero, so the next window again fits. */
  lemma WindowNext(W: seq<Digit>, D: seq<Digit>)
    requires |W| == |D| + 1 && Val(W) < Val(D)
    ensures W[|D|] == 0 && Val(W[..|D|]) == Val(W)
  {
    hide Val, BPow;
    ValBound(D);
    ValSmall(W, |D|);
  }

  /** One turn of the digit loop; vq is the value of the quotient digits found so far. */
  method LoopTurn(u: array<Digit>, j: nat, v: array<Digit>, vn: nat, t: array<Digit>,
                  ghost u0: int, ghost d: int, ghost vq: int) returns (qd: Digit)
    requires vn >= 1 && vn < j < u.Length && vn <= v.Length && v[vn-1] != 0
    requires t.Length >= 3 && t != u && t != v && u != v
    requires 0 < Val(v[..vn]) == d && Val(u[j-vn..j]) < d
    requires u0 == Val(u[..j]) + d * Shift(vq, j - vn)
    modifies u, t
    ensures u0 == Val(u[..j-1]) + d * Shift(qd + BASE * vq, j - 1 - vn)
    ensures Val(u[j-1-vn..j-1]) < d
  {
    hide Val, BPow, Shift;
    ghost var o := j - 1 - vn;
    ghost var W := u[o..j];
    SliceOfSlice(u, o, vn + 1, 1, vn + 1);
    assert o + (vn + 1) == j && W[1..vn+1] == W[1..];
    WindowFits(W, d);
    WindowAt(u, o, j);
    ghost var low := Val(u[..o]);
    ghost var L := u[..o];
    qd := DivideStep(u, j, v, vn, t);
    assert u[..o] == L;
    LoopAlg(u0, low, Val(W), d, qd, o, vq, Val(u[o..j]));
    WindowNext(u[o..j], v[..vn]);
    SliceOfSlice(u, o, vn + 1, 0, vn);
    u[j-1] := 0;       // it is zero already
    WindowAt(u, o, j - 1);
    assert u[..o] == L;
  }

  lemma WindowAt(u: array<Digit>, o: nat, j: nat)
    requires o <= j <= u.Length
    ensures Val(u[..j]) == Val(u[..o]) + Shift(Val(u[o..j]), o)
  {
    hide Val, Shift;
    ValSplit(u[..j], o);
    assert u[..j][..o] == u[..o] && u[..j][o..] == u[o..j];
  }

  /** Steps D2 to D7 over all digits of the dividend u[..utop]; quotient digits go to q unless it is nil. */
  method DivideLoop(u: array<Digit>, utop: nat, v: array<Digit>, vn: nat, q: array?<Digit>)
    requires 1 <= vn <= utop < u.Length && vn <= v.Length && v[vn-1] != 0 && u != v
    requires q != null ==> q != u && q != v && utop - vn <= q.Length
    requires 0 < Val(v[..vn]) && Val(u[utop-vn..utop]) < Val(v[..vn])
    modifies u, q
    ensures Val(u[..vn]) == old(Val(u[..utop])) % Val(v[..vn])
    ensures q != null ==> Val(q[..utop-vn]) == old(Val(u[..utop])) / old(Val(v[..vn]))
    ensures q != null ==> q[utop-vn..] == old(q[utop-vn..])
  {
    hide Val, BPow, Shift, Quotient;
    ghost var D := v[..vn];
    ghost var u0, d := Val(u[..utop]), Val(D);
    ghost var Q: seq<Digit> := [];
    var t := new Digit[MINDIGITS](_ => 0);
    var j := utop;
    var qd: Digit;
    ValEmpty(); ShiftZero(0);
    while j > vn
      invariant vn <= j <= utop && |Q| == utop - j
      invariant v[..vn] == D
      invariant Val(u[j-vn..j]) < d
      invariant u0 == Val(u[..j]) + d * Shift(Val(Q), j - vn)
      invariant q != null ==> forall k :: 0 <= k < |Q| ==> q[j-vn+k] == Q[k]
      invariant q != null ==> q[utop-vn..] == old(q[utop-vn..])
    {
      qd := LoopTurn(u, j, v, vn, t, u0, d, Val(Q));
      ValPrepend(qd, Q);
      Q := [qd] + Q;
      if q != null { q[j-1-vn] := qd; }
      j := j - 1;
    }
    assert u[..vn] == u[j-vn..j] == u[..j];
    ShiftZero(Val(Q));
    QuotientUnique(u0, d, Val(Q), Val(u[..vn]));
    if q != null { assert q[..utop-vn] == Q; }
  }

  // ------------------------------------------------------------------ mpdiv

  /** Step D1: how far the divisor must move for its top bit to be set. */
  method NormalShift(top: Digit) returns (s: nat)
    requires top != 0
    ensures s < 32 && BASE / 2 <= top * Pow2(s) < BASE
  {
    hide Pow2;
    var qd: int := top;
    s := 0;
    Pow2Zero();
    while qd < BASE / 2
      invariant 0 <= s && qd == top * Pow2(s) && 0 < qd < BASE
      decreases BASE - qd
    {
      DoublePow(top, s);
      qd := qd * 2;
      s := s + 1;
    }
    if s >= 32 {
      Pow2Word();
      ghost var p, q := Pow2(32), Pow2(s - 32);
      Pow2Add(32, s - 32);
      MulMono(1, top, Pow2(s));
      MulMono(1, q, p);
      assert false;
    }
  }

  /** The shift by s bits cancels out of quotient and remainder. */
  lemma ScaledDivision(a: int, d: int, p: int)
    requires a >= 0 && d > 0 && p > 0
    ensures d * p > 0
    ensures (a * p) / (d * p) == a / d
    ensures (a * p) % (d * p) / p == a % d
  {
    DivBounds(a, d);
    var q, r := a / d, a % d;
    MulMono(1, d, p);
    assert (q * d + r) * p == q * (d * p) + r * p;
    MulMono(r + 1, d, p);
    MulMono(0, r, p);
    assert (r + 1) * p == r * p + p;
    DivUnique(a * p, d * p, q, r * p);
    DivBounds(a * p, d * p);
    DivUnique(r * p, p, r, 0);
  }

  /** A dividend shifted by less than one digit grows by at most one digit. */
  lemma ShiftedTop(D: seq<Digit>, s: nat, U: seq<Digit>)
    requires s < 32 && Val(U) == Val(D) * Pow2(s)
    requires |U| > 0 ==> U[|U|-1] != 0
    ensures |U| <= |D| + (if s == 0 then 0 else 1)
  {
    hide Val, BPow, Pow2;
    var n := |D| + (if s == 0 then 0 else 1);
    if |U| > n {
      ValLead(U);
      ValBound(D);
      ShiftedBound(Val(D), |D|, s);
      BPowMonotone(n, |U| - 1);
    }
  }

  lemma ShiftedBound(x: int, n: nat, s: nat)
    requires 0 <= x < BPow(n) && s < 32
    ensures x * Pow2(s) < BPow(n + if s == 0 then 0 else 1)
  {
    hide BPow, Pow2;
    Pow2Word();
    Pow2Zero();
    Pow2Add(s, 32 - s);
    BPowUp(n);
    var p, q, w := Pow2(s), Pow2(32 - s), BPow(n);
    MulMono(1, q, p);
    MulMono(x + 1, w, p);
    assert (x + 1) * p == x * p + p;
    MulMono(p, BASE, w);
  }

  /** Step D1a makes the top vn digits of u smaller than the divisor. */
  lemma TopBelow(U: seq<Digit>, D: seq<Digit>)
    requires |D| >= 1 && |U| == |D| && U[|D|-1] < D[|D|-1]
    ensures Val(U) < Val(D)
  {
    var n := |D| - 1;
    assert U[n+1..] == D[n+1..];
    TopDecides(U, D, n);
  }

  /** Step D1a on u[..utop], which is not smaller than the divisor D. */
  method TopDigitBelow(u: MpInt, v: MpInt) returns (utop: nat)
    requires u.Valid() && v.Valid() && v.top > 0 && u.p != v.p && u.top + 1 < u.p.Length
    requires u.Mag() >= v.Mag()
    modifies u.p
    ensures v.top <= utop < u.p.Length
    ensures Val(u.p[..utop]) == old(u.Mag()) && Val(u.p[utop-v.top..utop]) < Val(v.p[..v.top])
  {
    hide Val, BPow;
    var vn := v.top;
    MagIsZero(v); MagIsZero(u);
    if u.top < vn { LongerWins(v.p[..vn], vn - 1, u.p[..u.top]); }
    utop := u.top;
    if u.p[utop-1] >= v.p[vn-1] {
      ghost var U := u.p[..utop];
      u.p[utop] := 0;
      utop := utop + 1;
      ValTrim(u.p[..utop], utop - 1);
      assert u.p[..utop][..utop-1] == U;
    }
    TopBelow(u.p[utop-vn..utop], v.p[..vn]);
  }

  /** Step D1: copies of dividend and divisor moved up by s bits; an unmoved divisor may be shared. */
  method Normalize(dividend: MpInt, divisor: MpInt, share: bool) returns (u: MpInt, v: MpInt, s: nat)
    requires dividend.Valid() && divisor.Valid() && divisor.top != 0
    ensures s < 32
    ensures fresh(u) && fresh(u.p) && u.Valid() && u.sign == dividend.sign
    ensures v == divisor || (fresh(v) && fresh(v.p))
    ensures !share ==> v != divisor
    ensures v.Valid() && v.top > 0 && u.p != v.p && u != v && u.top + 1 < u.p.Length
    ensures u.Mag() == dividend.Mag() * Pow2(s) && v.Mag() == divisor.Mag() * Pow2(s)
  {
    hide Val, BPow, Pow2;
    MagIsZero(divisor);
    s := NormalShift(divisor.p[divisor.top-1]);
    var dtop := dividend.top;
    u := new MpInt((dtop + 2) * DBITS + s);
    if s == 0 && share {
      mpassign(dividend, u);
      v := divisor;
      Pow2Zero();
    } else {
      mpleft(dividend, s, u);
      v := new MpInt(divisor.top * DBITS);
      mpleft(divisor, s, v);
    }
    MulMono(1, divisor.Mag(), Pow2(s));
    MagIsZero(v);
    ShiftedTop(dividend.p[..dtop], s, u.p[..u.top]);
  }

  /** Steps D2 to D7 with the quotient stored in a number of its own. */
  method DivideInto(u: MpInt, utop: nat, v: MpInt, quotient: MpInt)
    requires v.Valid() && v.top > 0 && v.top <= utop < u.p.Length && u.p != v.p
    requires quotient.Shape() && quotient != u && quotient != v && quotient.p != u.p && quotient.p != v.p
    requires 0 < v.Mag() <= Val(u.p[..utop]) && Val(u.p[utop-v.top..utop]) < v.Mag()
    modifies u.p, quotient, quotient.p
    ensures Val(u.p[..v.top]) == old(Val(u.p[..utop])) % v.Mag()
    ensures quotient.Valid() && (quotient.p == old(quotient.p) || fresh(quotient.p))
    ensures quotient.Mag() == old(Val(u.p[..utop])) / v.Mag() && quotient.sign == old(quotient.sign)
    ensures v.Shape() && v.Mag() == old(v.Mag())
  {
    hide Val, BPow, Pow2;
    var vn := v.top;
    ghost var U, D := u.p[..utop], v.p[..vn];
    NonZeroQuotient(Val(U), Val(D));
    assert u.p[utop-vn..utop] == U[utop-vn..];
    mpbits(quotient, (utop - vn) * DBITS);
    quotient.top := utop - vn;
    assert v.p[..vn] == D && u.p[..utop] == U;
    assert u.p[utop-vn..utop] == U[utop-vn..];
    DivideLoop(u.p, utop, v.p, vn, quotient.p);
    assert v.p[..vn] == D;
    mpnorm(quotient);
    MagIsZero(quotient);
  }

  /** Steps D1 to D7 for a dividend not smaller than the divisor: magnitudes of quotient and remainder. */
  method LongDivision(dividend: MpInt, divisor: MpInt, quotient: MpInt?, remainder: MpInt?)
      returns (u: MpInt, s: nat)
    requires dividend.Valid() && divisor.Valid() && divisor.top != 0 && dividend.Mag() >= divisor.Mag()
    requires quotient != null ==> quotient.Shape() && Own(dividend, quotient) && Own(divisor, quotient)
    modifies if quotient == null then {} else {quotient, quotient.p}
    ensures fresh(u) && fresh(u.p) && u.Shape() && u.sign == old(dividend.sign) && u.top > 0 && s < 32
    ensures u.Mag() / Pow2(s) == old(dividend.Mag()) % old(divisor.Mag())
    ensures quotient != null ==>
      && quotient.Valid() && (quotient.p == old(quotient.p) || fresh(quotient.p))
      && quotient.Mag() == old(dividend.Mag()) / old(divisor.Mag())
      && quotient.sign == old(quotient.sign)
  {
    hide Val, BPow, Pow2;
    ghost var a, d := dividend.Mag(), divisor.Mag();
    MagIsZero(divisor);
    var v: MpInt;
    u, v, s := Normalize(dividend, divisor, divisor != quotient && divisor != remainder);
    ScaledDivision(a, d, Pow2(s));
    MulMono(d, a, Pow2(s));
    var utop := TopDigitBelow(u, v);
    if quotient != null {
      DivideInto(u, utop, v, quotient);
    } else {
      DivideLoop(u.p, utop, v.p, v.top, null);
    }
    u.top := v.top;
  }

  lemma NonZeroQuotient(a: int, d: int)
    requires d > 0 && a >= d
    ensures a / d >= 1
  {
    DivBounds(a, d);
    if a / d < 1 { MulMono(a / d, 0, d); }
  }

  /** The quick exit of mpdiv: the remainder is the dividend, sign and all, and the quotient is plus zero. */
  method SmallDividend(dividend: MpInt, divisor: MpInt, quotient: MpInt?, remainder: MpInt?)
    requires dividend.Valid() && divisor.Valid() && dividend.Mag() < divisor.Mag()
    requires quotient != null ==> quotient.Shape() && Own(dividend, quotient)
    requires remainder != null ==> remainder.Shape() && Own(dividend, remainder)
    requires quotient != null && remainder != null ==> quotient.p != remainder.p && quotient != remainder
    modifies if quotient == null then {} else {quotient, quotient.p}
    modifies if remainder == null then {} else {remainder, remainder.p}
    ensures quotient != null ==>
      && quotient.Valid() && (quotient.p == old(quotient.p) || fresh(quotient.p))
      && quotient.Mag() == 0 && quotient.sign == 1
    ensures remainder != null ==>
      && remainder.Valid() && (remainder.p == old(remainder.p) || fresh(remainder.p))
      && remainder.Mag() == old(dividend.Mag()) && remainder.sign == old(dividend.sign)
      && (old(dividend.top) > 0 ==> remainder.top > 0)
      && (old(dividend.top) == 0 ==> remainder.p == old(remainder.p) && remainder.p[..] == old(remainder.p[..]))
    ensures quotient != null && remainder != null ==> quotient.p != remainder.p
    ensures old(dividend.Mag()) / old(divisor.Mag()) == 0 && old(dividend.Mag()) % old(divisor.Mag()) == old(dividend.Mag())
  {
    hide Val;
    DivUnique(dividend.Mag(), divisor.Mag(), 0, dividend.Mag());
    DivBounds(dividend.Mag(), divisor.Mag());
    if remainder != null { mpassign(dividend, remainder); }
    if quotient != null {
      var zero := new MpInt.OfDigit(0);
      mpassign(zero, quotient);
      MagIsZero(quotient);
    }
  }

  /** The last lines of mpdiv; the sign is read from the dividend after the remainder is stored. */
  method StoreRemainder(u: MpInt, s: nat, dividend: MpInt, remainder: MpInt)
    requires u.Shape() && u.top > 0 && s < 32 && remainder.Shape() && u != remainder && u.p != remainder.p
    requires dividend.Shape()
    modifies remainder, remainder.p
    ensures remainder.Valid() && (remainder.p == old(remainder.p) || fresh(remainder.p))
    ensures remainder.Mag() == old(u.Mag()) / Pow2(s)
    ensures remainder.sign == if remainder != dividend then old(dividend.sign)
                              else if remainder.Mag() == 0 then 1 else old(u.sign)
    ensures remainder.top == 0 ==> remainder.p.Length > 0 && remainder.p[0] == 0
  {
    hide Val, Pow2;
    mpright(u, s, remainder);
    MagIsZero(remainder);
    remainder.sign := dividend.sign;
  }

  /** Division of magnitudes, with the signs the C code leaves behind.  A quotient that is also the
      dividend lends its new sign to the remainder; a remainder that is also the dividend keeps the
      plus sign mpright gives to zero.  A zero remainder has a zero lowest digit, which callers read
      without looking at top, unless a zero was divided and the digit was not zero before. */
  method mpdiv(dividend: MpInt, divisor: MpInt, quotient: MpInt?, remainder: MpInt?)
    requires dividend.Valid() && divisor.Valid() && divisor.top != 0
    requires quotient != null ==> quotient.Shape() && Own(dividend, quotient) && Own(divisor, quotient)
    requires remainder != null ==> remainder.Shape() && Own(dividend, remainder) && Own(divisor, remainder)
    requires quotient != null && remainder != null ==> quotient.p != remainder.p && quotient != remainder
    modifies if quotient == null then {} else {quotient, quotient.p}
    modifies if remainder == null then {} else {remainder, remainder.p}
    ensures quotient != null ==>
      && quotient.Valid() && (quotient.p == old(quotient.p) || fresh(quotient.p))
      && quotient.Mag() == old(dividend.Mag()) / old(divisor.Mag())
      && quotient.sign == (if old(dividend.Mag() < divisor.Mag()) then 1
                           else if old(dividend.sign != divisor.sign) then -1 else old(quotient.sign))
    ensures remainder != null ==>
      && remainder.Valid() && (remainder.p == old(remainder.p) || fresh(remainder.p))
      && remainder.Mag() == old(dividend.Mag()) % old(divisor.Mag())
      && remainder.sign == RemainderSign(old(dividend.sign), old(dividend.Mag() < divisor.Mag()),
                                         remainder == dividend, remainder.Mag() == 0,
                                         quotient == dividend, dividend.sign)
      && (remainder.top == 0 && old(dividend.top > 0 || (remainder.p.Length > 0 && remainder.p[0] == 0)) ==>
          remainder.p.Length > 0 && remainder.p[0] == 0)
    ensures quotient != null && remainder != null ==> quotient.p != remainder.p
  {
    hide Val, BPow, Pow2, MpInt.Mag;
    MagIsZero(divisor);
    var c := mpmagcmp(dividend, divisor);
    if c < 0 {
      SmallDividend(dividend, divisor, quotient, remainder);
      return;
    }
    ghost var was := dividend.sign;
    var different := dividend.sign != divisor.sign;
    var u, s := LongDivision(dividend, divisor, quotient, remainder);
    if quotient != null && different { setSign(quotient, -1); }
    if remainder != null {
      StoreRemainder(u, s, dividend, remainder);
    }
  }

  /** The sign mpdiv leaves on the remainder. */
  function RemainderSign(was: int, quick: bool, sameAsDividend: bool, zero: bool, quotientIsDividend: bool, now: int): int
  {
    if quick then was
    else if sameAsDividend then (if zero then 1 else was)
    else if quotientIsDividend then now
    else was
  }
}
