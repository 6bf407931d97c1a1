/** Little-endian vectors of 32-bit digits and the natural numbers they stand for. */
module Digits {
  const BASE: int := 0x1_0000_0000

  type Digit = x: int | 0 <= x < 0x1_0000_0000

  /** BASE to the n-th power. */
  function BPow(n: nat): (p: nat)
    ensures p >= 1
  {
    if n == 0 then 1 else BASE * BPow(n - 1)
  }

  /** x moved up by n digits. */
  function Shift(x: int, n: nat): int
  {
    x * BPow(n)
  }

  /** The number a digit vector stands for, least significant digit first. */
  function Val(s: seq<Digit>): (v: int)
    ensures v >= 0
  {
    if |s| == 0 then 0 else
      ShiftMono(0, s[|s|-1], |s|-1);
      Val(s[..|s|-1]) + Shift(s[|s|-1], |s|-1)
  }

  /** An upward loop may write from dst[d] while it reads src[o..o+n]: it never runs ahead of the
      reads, because the ranges start together, or dst starts lower, or src ends below it. */
  ghost predicate Behind(dst: array<Digit>, d: int, src: array<Digit>, o: int, n: int)
  {
    dst == src ==> d <= o || o + n <= d
  }

  // ------------------------------------------------------------------ Shift

  lemma MulMono(x: int, y: int, p: int)
    requires x <= y && 0 <= p
    ensures x * p <= y * p
  {
    assert (y - x) * p >= 0;
  }

  lemma MulEq(x: int, y: int, p: int)
    requires x == y
    ensures x * p == y * p
  {
  }

  lemma ShiftMono(x: int, y: int, n: nat)
    requires x <= y
    ensures Shift(x, n) <= Shift(y, n)
  {
    MulMono(x, y, BPow(n));
  }

  lemma ShiftLinear(x: int, y: int, n: nat)
    ensures Shift(x + y, n) == Shift(x, n) + Shift(y, n)
    ensures Shift(x - y, n) == Shift(x, n) - Shift(y, n)
  {
  }

  lemma ShiftScale(m: int, x: int, n: nat)
    ensures Shift(m * x, n) == m * Shift(x, n)
  {
    assert m * x * BPow(n) == m * (x * BPow(n));
  }

  lemma ShiftZero(x: int)
    ensures Shift(x, 0) == x
    ensures forall n: nat :: Shift(0, n) == 0
  {
  }

  lemma ShiftUp(x: int, n: nat)
    ensures Shift(x, n + 1) == Shift(BASE * x, n)
    ensures Shift(x, n + 1) == BASE * Shift(x, n)
  {
    assert x * (BASE * BPow(n)) == BASE * x * BPow(n);
  }

  lemma {:induction false} BPowAdd(m: nat, n: nat)
    ensures BPow(m + n) == BPow(m) * BPow(n)
  {
    if n > 0 {
      BPowAdd(m, n - 1);
      assert BPow(m) * (BASE * BPow(n - 1)) == BASE * (BPow(m) * BPow(n - 1));
    }
  }

  lemma ShiftShift(x: int, m: nat, n: nat)
    ensures Shift(Shift(x, m), n) == Shift(x, m + n)
  {
    BPowAdd(m, n);
    assert x * BPow(m) * BPow(n) == x * (BPow(m) * BPow(n));
  }

  lemma {:induction false} BPowMonotone(m: nat, n: nat)
    requires m <= n
    ensures BPow(m) <= BPow(n)
  {
    if m < n {
      BPowMonotone(m, n - 1);
    }
  }

  // -------------------------------------------------------------------- Val

  lemma ValAppend(s: seq<Digit>, d: Digit)
    ensures Val(s + [d]) == Val(s) + Shift(d, |s|)
  {
    assert (s + [d])[..|s|] == s;
  }

  lemma ValEmpty()
    ensures Val([]) == 0
    ensures forall s: seq<Digit> :: |s| == 0 ==> Val(s) == 0
  {
  }

  lemma ValOne(d: Digit)
    ensures Val([d]) == d
  {
    assert [d] == [] + [d];
    ValAppend([], d);
  }

  lemma {:induction false} ValConcat(s: seq<Digit>, t: seq<Digit>)
    ensures Val(s + t) == Val(s) + Shift(Val(t), |s|)
  {
    if |t| == 0 {
      assert s + t == s;
    } else {
      var t' := t[..|t|-1];
      var d := t[|t|-1];
      assert s + t == (s + t') + [d];
      ValAppend(s + t', d);
      ValConcat(s, t');
      ShiftShift(d, |t'|, |s|);
      ShiftLinear(Val(t'), Shift(d, |t'|), |s|);
    }
  }

  lemma ValSplit(s: seq<Digit>, i: nat)
    requires i <= |s|
    ensures Val(s) == Val(s[..i]) + Shift(Val(s[i..]), i)
  {
    assert s == s[..i] + s[i..];
    ValConcat(s[..i], s[i..]);
  }

  lemma {:induction false} ValBound(s: seq<Digit>)
    ensures Val(s) < BPow(|s|)
  {
    if |s| > 0 {
      hide Val, Shift;
      ValBound(s[..|s|-1]);
      ValSplit(s, |s|-1);
      assert s[|s|-1..] == [s[|s|-1]];
      ValOne(s[|s|-1]);
      ShiftMono(s[|s|-1], BASE - 1, |s|-1);
      ShiftIsPow(|s|-1);
    }
  }

  lemma ShiftIsPow(n: nat)
    ensures Shift(1, n) == BPow(n)
    ensures Shift(BASE - 1, n) == BPow(n + 1) - BPow(n)
    ensures Shift(BASE, n) == BPow(n + 1)
  {
  }

  /** Digits above the top may be zero without changing the value. */
  lemma {:induction false} ValZeros(s: seq<Digit>)
    requires forall k :: 0 <= k < |s| ==> s[k] == 0
    ensures Val(s) == 0
  {
    if |s| > 0 { ValZeros(s[..|s|-1]); }
  }

  lemma ValTrim(s: seq<Digit>, i: nat)
    requires i <= |s| && forall k :: i <= k < |s| ==> s[k] == 0
    ensures Val(s) == Val(s[..i])
  {
    ValSplit(s, i);
    ValZeros(s[i..]);
  }

  /** A non-zero leading digit puts the value at BASE^(n-1) or above. */
  lemma ValLead(s: seq<Digit>)
    requires |s| > 0 && s[|s|-1] != 0
    ensures BPow(|s|-1) <= Val(s)
  {
    ShiftMono(1, s[|s|-1], |s|-1);
    ShiftIsPow(|s|-1);
  }

  /** A vector whose value is below BASE^i has only zeros from digit i on. */
  lemma {:induction false} ValSmall(s: seq<Digit>, i: nat)
    requires i <= |s| && Val(s) < BPow(i)
    ensures forall k :: i <= k < |s| ==> s[k] == 0
    ensures Val(s) == Val(s[..i])
  {
    if i < |s| {
      var n := |s| - 1;
      if s[n] != 0 {
        ValLead(s);
        BPowMonotone(i, n);
        assert false;
      }
      assert s[..n][..i] == s[..i];
      ValSmall(s[..n], i);
      assert forall k :: i <= k < n ==> s[k] == s[..n][k];
    } else {
      assert s[..i] == s;
    }
  }

  /** The highest digit where two vectors differ decides their order. */
  lemma TopDecides(A: seq<Digit>, B: seq<Digit>, n: nat)
    requires n < |A| == |B| && A[n+1..] == B[n+1..] && A[n] < B[n]
    ensures Val(A) < Val(B)
  {
    hide Val, Shift;
    ValSplit(A, n + 1);
    ValSplit(B, n + 1);
    assert A[..n+1] == A[..n] + [A[n]] && B[..n+1] == B[..n] + [B[n]];
    ValAppend(A[..n], A[n]);
    ValAppend(B[..n], B[n]);
    ValBound(A[..n]);
    ShiftMono(A[n] + 1, B[n], n);
    ShiftLinear(A[n], 1, n);
    ShiftIsPow(n);
  }

  // ---------------------------------------------------------- cells of arrays

  lemma SliceOfSlice(x: array<Digit>, o: nat, n: nat, i: nat, j: nat)
    requires o + n <= x.Length && i <= j <= n
    ensures x[o..o+n][i..j] == x[o+i..o+j]
  {
    var s, t := x[o..o+n], x[o+i..o+j];
    assert forall k :: 0 <= k < j - i ==> s[i..j][k] == s[i+k] == x[o+(i+k)] == t[k];
  }

  /** memset(p + lo, 0, n digits) */
  method Clear(p: array<Digit>, lo: nat, n: nat)
    requires lo + n <= p.Length
    modifies p
    ensures forall k :: 0 <= k < p.Length ==> p[k] == if lo <= k < lo + n then 0 else old(p[k])
    ensures Val(p[lo..lo+n]) == 0
  {
    forall k | lo <= k < lo + n { p[k] := 0; }
    ValZeros(p[lo..lo+n]);
  }
}
