/** Products of digit vectors: the schoolbook loop and Karatsuba's recursion above 32 digits. */
module MpMul {
  import opened Digits
  import opened MpVec
  import opened MpInts

  const KARATSUBAMIN := 32

  /** x[o..o+n] and p[po..po+m] have no cell in common. */
  ghost predicate Apart(x: array<Digit>, o: int, n: int, p: array<Digit>, po: int, m: int)
  {
    x == p ==> o + n <= po || po + m <= o
  }

  // ------------------------------------------------ adding into the middle

  /** Part of a vector replaced: the value moves by what the part moved, shifted. */
  lemma PartChanged(R: seq<Digit>, S: seq<Digit>, off: nat, x: int)
    requires off <= |R| && off <= |S| && R[..off] == S[..off]
    requires Val(S[off..]) == Val(R[off..]) + x
    ensures Val(S) == Val(R) + Shift(x, off)
  {
    hide Val, Shift;
    ValSplit(R, off);
    ValSplit(S, off);
    ShiftLinear(Val(R[off..]), x, off);
  }

  /** A vector within a buffer, in two parts. */
  lemma InTwo(t: array<Digit>, res: nat, off: nat, o: nat, len: nat, reslen: nat)
    requires o == res + off && off + len == reslen && res + reslen <= t.Length
    ensures t[res..res+reslen][..off] == t[res..o] && t[res..res+reslen][off..] == t[o..o+len]
  {
  }

  /** mpvecadd(res+off, reslen-off, src, n, res+off), when the sum still fits the scratch result. */
  method AddAt(t: array<Digit>, res: nat, reslen: nat, off: nat, src: nat, n: nat)
    requires off + n <= reslen && res + reslen < t.Length && src + n <= res
    requires Val(t[res..res+reslen]) + Shift(Val(t[src..src+n]), off) < BPow(reslen)
    modifies t
    ensures Val(t[res..res+reslen]) == old(Val(t[res..res+reslen])) + Shift(old(Val(t[src..src+n])), off)
    ensures forall k :: 0 <= k < t.Length && !(res <= k <= res + reslen) ==> t[k] == old(t[k])
  {
    hide Val, Shift, BPow, Added;
    ghost var T := t[..];
    addTail(t, res + off, reslen - off, src, n);
    AddedWithin(T, t[..], res, off, res + off, reslen - off, Val(T[src..src+n]));
  }

  /** T becomes T', where the digits from o on have grown by x and one more digit. */
  ghost predicate Added(T: seq<Digit>, T': seq<Digit>, o: nat, len: nat, x: int)
  {
    && |T'| == |T| && o + len < |T| && Val(T'[o..o+len+1]) == Val(T[o..o+len]) + x
    && forall k :: 0 <= k < |T| && !(o <= k <= o + len) ==> T'[k] == T[k]
  }

  method addTail(t: array<Digit>, o: nat, len: nat, src: nat, n: nat)
    requires n <= len && o + len < t.Length && src + n <= o
    modifies t
    ensures Added(old(t[..]), t[..], o, len, old(Val(t[src..src+n])))
  {
    hide Val, Shift, BPow;
    mpvecadd(t, o, len, t, src, n, t, o);
  }

  lemma AddedWithin(T: seq<Digit>, T': seq<Digit>, res: nat, off: nat, o: nat, len: nat, x: int)
    requires o == res + off && Added(T, T', o, len, x) && Val(T[res..res+(off+len)]) + Shift(x, off) < BPow(off + len)
    ensures |T'| == |T| && Val(T'[res..res+(off+len)]) == Val(T[res..res+(off+len)]) + Shift(x, off)
    ensures forall k :: 0 <= k < |T| && !(res <= k <= res + (off + len)) ==> T'[k] == T[k]
  {
    hide Val, Shift, BPow;
    var R, S := T[res..res+(off+len)], T'[res..res+(off+len)+1];
    assert R[off..] == T[o..o+len] && S[off..] == T'[o..o+len+1];
    assert R[..off] == S[..off];
    SumFits(R, S, off, x);
    assert S[..off+len] == T'[res..res+(off+len)];
  }

  lemma SumFits(R: seq<Digit>, S: seq<Digit>, off: nat, x: int)
    requires off <= |R| && |S| == |R| + 1 && R[..off] == S[..off]
    requires Val(S[off..]) == Val(R[off..]) + x && Val(R) + Shift(x, off) < BPow(|R|)
    ensures Val(S[..|R|]) == Val(R) + Shift(x, off)
  {
    hide Val, Shift, BPow;
    PartChanged(R, S, off, x);
    ValSmall(S, |R|);
  }

  /** mpvecsub(res+off, reslen-off, src, n, res+off), when nothing is borrowed from above. */
  method SubAt(t: array<Digit>, res: nat, reslen: nat, off: nat, src: nat, n: nat)
    requires off + n <= reslen && res + reslen < t.Length && src + n <= res
    requires Val(t[res..res+reslen]) >= Shift(Val(t[src..src+n]), off)
    modifies t
    ensures Val(t[res..res+reslen]) == old(Val(t[res..res+reslen])) - Shift(old(Val(t[src..src+n])), off)
    ensures forall k :: 0 <= k < t.Length && !(res <= k <= res + reslen) ==> t[k] == old(t[k])
  {
    hide Val, Shift, BPow;
    var o, len := res + off, reslen - off;
    ghost var R, x, low := t[res..res+reslen], Val(t[src..src+n]), t[res..o];
    NoBorrow(R, off, x);
    InTwo(t, res, off, o, len, reslen);
    mpvecsub(t, o, len, t, src, n, t, o);
    ghost var S := t[res..res+reslen];
    InTwo(t, res, off, o, len, reslen);
    assert t[res..o] == low;
    PartTaken(R, S, off, x);
  }

  lemma PartTaken(R: seq<Digit>, S: seq<Digit>, off: nat, x: int)
    requires off <= |R| && off <= |S| && R[..off] == S[..off]
    requires Val(S[off..]) == Val(R[off..]) - x
    ensures Val(S) == Val(R) - Shift(x, off)
  {
    hide Val, Shift;
    PartChanged(R, S, off, -x);
    ShiftLinear(0, x, off);
    ShiftZero(0);
  }

  lemma NoBorrow(R: seq<Digit>, off: nat, x: int)
    requires off <= |R| && Val(R) >= Shift(x, off)
    ensures Val(R[off..]) >= x
  {
    hide Val, Shift, BPow;
    ValSplit(R, off);
    ValBound(R[..off]);
    var h := Val(R[off..]);
    if h < x {
      ShiftMono(h + 1, x, off);
      ShiftLinear(h, 1, off);
      ShiftIsPow(off);
    }
  }

  // --------------------------------------------------- Karatsuba's identity

  function Abs(x: int): nat { if x < 0 then -x else x }

  lemma AbsProduct(x: int, y: int)
    ensures x * y == (if (x < 0) != (y < 0) then -(Abs(x) * Abs(y)) else Abs(x) * Abs(y))
  {
  }

  lemma Expand(u0: int, u1: int, v0: int, v1: int)
    ensures (u1 - u0) * (v0 - v1) == u1 * v0 + u0 * v1 - u1 * v1 - u0 * v0
  {
  }

  /** The product in terms of the three half-length products. */
  lemma Identity(u0: int, u1: int, v0: int, v1: int, n: nat)
    ensures (u0 + Shift(u1, n)) * (v0 + Shift(v1, n))
      == u0 * v0 + Shift(u0 * v0 + u1 * v1 + (u1 - u0) * (v0 - v1), n) + Shift(u1 * v1, 2 * n)
  {
    hide BPow, Shift;
    Expand(u0, u1, v0, v1);
    var p := BPow(n);
    ShiftIs(u1, n); ShiftIs(v1, n);
    ShiftIs(u1 * v0 + u0 * v1, n);
    ShiftShift(u1 * v1, n, n);
    ShiftIs(u1 * v1, n);
    ShiftIs(u1 * v1 * p, n);
    ProductParts(u0, u1, v0, v1, p);
  }

  lemma ProductParts(u0: int, u1: int, v0: int, v1: int, p: int)
    ensures (u0 + u1 * p) * (v0 + v1 * p) == u0 * v0 + (u1 * v0 + u0 * v1) * p + u1 * v1 * p * p
  {
    TwoByTwo(u0, u1 * p, v0, v1 * p);
    assert u0 * (v1 * p) == u0 * v1 * p;
    assert u1 * p * v0 == u1 * v0 * p;
    assert u1 * p * (v1 * p) == u1 * v1 * p * p;
    assert (u1 * v0 + u0 * v1) * p == u1 * v0 * p + u0 * v1 * p;
  }

  lemma TwoByTwo(a: int, b: int, c: int, d: int)
    ensures (a + b) * (c + d) == a * c + a * d + b * c + b * d
  {
  }

  lemma ShiftIs(x: int, n: nat)
    ensures Shift(x, n) == x * BPow(n)
  {
  }

  /** Products of numbers below BASE^m and BASE^k are below BASE^(m+k). */
  lemma ProductBound(x: nat, y: nat, m: nat, k: nat)
    requires x < BPow(m) && y < BPow(k)
    ensures x * y < BPow(m + k)
  {
    hide BPow;
    BPowAdd(m, k);
    MulMono(x + 1, BPow(m), y);
    MulMono(y + 1, BPow(k), BPow(m));
    assert (x + 1) * y == x * y + y && (y + 1) * BPow(m) == y * BPow(m) + BPow(m);
  }

  lemma ProductNonNegative(x: nat, y: nat)
    ensures x * y >= 0
  {
  }

  /** Every partial sum fits the 4n+1 digits of the scratch result. */
  lemma PartialSums(x0: nat, x1: nat, n: nat)
    requires n >= 1 && x0 < BPow(2 * n) && x1 < BPow(2 * n)
    ensures 0 <= Shift(x0, n) && 0 <= Shift(x1, n) && 0 <= Shift(x1, 2 * n)
    ensures x0 + Shift(x0, n) + Shift(x1, n) + Shift(x1, 2 * n) < BPow(4 * n + 1)
  {
    hide Shift, BPow;
    var p := BPow(2 * n);
    ShiftMono(0, x0, n); ShiftMono(0, x1, n); ShiftMono(0, x1, 2 * n);
    ShiftZero(0);
    ShiftMono(x0, p, n); ShiftMono(x1, p, n); ShiftMono(x1, p, 2 * n);
    ShiftIs(p, n); ShiftIs(p, 2 * n);
    BPowAdd(2 * n, n); BPowAdd(2 * n, 2 * n);
    BPowMonotone(2 * n, 4 * n); BPowMonotone(3 * n, 4 * n);
    ShiftIsPow(4 * n);
    ShiftIs(BASE, 4 * n);
    assert 2 * n + n == 3 * n && 2 * n + 2 * n == 4 * n;
  }

  /** The middle term is a sum of two products, so taking the signed part last never underflows. */
  lemma MiddleNotNegative(u0: nat, u1: nat, v0: nat, v1: nat)
    ensures u0 * v0 + u1 * v1 + (u1 - u0) * (v0 - v1) >= 0
  {
    Expand(u0, u1, v0, v1);
    ProductNonNegative(u1, v0);
    ProductNonNegative(u0, v1);
  }

  /** |x1 - x0| for two vectors, x0 the longer, into zeroed scratch.  The C code compares the halves of
      one factor as x1 - x0 and those of the other as x0 - x1; the result says whether that is negative. */
  method AbsDiff(x: array<Digit>, o0: nat, n0: nat, o1: nat, n1: nat, highFirst: bool, t: array<Digit>, d: nat)
      returns (negative: bool)
    requires n1 <= n0 && o0 + n0 <= x.Length && o1 + n1 <= x.Length && d + n0 <= t.Length
    requires Apart(x, o0, n0, t, d, n0) && Apart(x, o1, n1, t, d, n0)
    requires forall k :: d <= k < d + n0 ==> t[k] == 0
    modifies t
    ensures negative == if highFirst then old(Val(x[o1..o1+n1])) < old(Val(x[o0..o0+n0]))
                                     else old(Val(x[o0..o0+n0])) < old(Val(x[o1..o1+n1]))
    ensures Val(t[d..d+n0]) == Abs(old(Val(x[o1..o1+n1])) - old(Val(x[o0..o0+n0])))
    ensures forall k :: 0 <= k < t.Length && !(d <= k < d + n0) ==> t[k] == old(t[k])
  {
    hide Val, BPow;
    var c: int;
    if highFirst {
      c := mpveccmp(x, o1, n1, x, o0, n0);
    } else {
      c := mpveccmp(x, o0, n0, x, o1, n1);
    }
    negative := c < 0;
    if negative == highFirst {
      mpvecsub(x, o0, n0, x, o1, n1, t, d);
    } else {
      SubShorter(x, o0, n0, o1, n1, t, d);
    }
  }

  /** x1 - x0 when x1 is not smaller although x0 may have more digits: those must be zero. */
  method SubShorter(x: array<Digit>, o0: nat, n0: nat, o1: nat, n1: nat, t: array<Digit>, d: nat)
    requires n1 <= n0 && o0 + n0 <= x.Length && o1 + n1 <= x.Length && d + n0 <= t.Length
    requires Apart(x, o0, n0, t, d, n0) && Apart(x, o1, n1, t, d, n0)
    requires forall k :: d <= k < d + n0 ==> t[k] == 0
    requires Val(x[o1..o1+n1]) >= Val(x[o0..o0+n0])
    modifies t
    ensures Val(t[d..d+n0]) == old(Val(x[o1..o1+n1])) - old(Val(x[o0..o0+n0]))
    ensures forall k :: 0 <= k < t.Length && !(d <= k < d + n0) ==> t[k] == old(t[k])
  {
    hide Val, BPow;
    ghost var X0 := x[o0..o0+n0];
    ValBound(x[o1..o1+n1]);
    ValSmall(X0, n1);
    SliceOfSlice(x, o0, n0, 0, n1);
    mpvecsub(x, o1, n1, x, o0, n1, t, d);
    ValTrim(t[d..d+n0], n1);
    SliceOfSlice(t, d, n0, 0, n1);
  }

  // ------------------------------------------------------------- the products

  function Max(x: int, y: int): int { if x < y then y else x }

  /** One turn of the schoolbook loop: digit i of b times a lands at digit i of p. */
  lemma RowAdded(P: seq<Digit>, P': seq<Digit>, i: nat, n: nat, va: int, vb: int, d: Digit)
    requires i + n + 1 == |P'| == |P| + 1 && P'[..i] == P[..i]
    requires Val(P) == va * vb
    requires Val(P'[i..]) == Val(P[i..]) + d * va
    ensures Val(P') == va * (vb + Shift(d, i))
  {
    hide Val, Shift;
    PartChanged(P, P', i, d * va);
    ShiftScale(va, d, i);
    assert d * va == va * d;
    assert va * (vb + Shift(d, i)) == va * vb + va * Shift(d, i);
  }

  /** The schoolbook product, row by row. */
  method Rows(a: array<Digit>, ao: nat, alen: nat, b: array<Digit>, bo: nat, blen: nat, p: array<Digit>, po: nat)
    requires ao + alen <= a.Length && bo + blen <= b.Length && po + alen + blen <= p.Length
    requires Apart(a, ao, alen, p, po, alen + blen) && Apart(b, bo, blen, p, po, alen + blen)
    requires forall k :: po <= k < po + alen + blen ==> p[k] == 0
    modifies p
    ensures Val(p[po..po+alen+blen]) == old(Val(a[ao..ao+alen])) * old(Val(b[bo..bo+blen]))
    ensures forall k :: 0 <= k < p.Length && !(po <= k < po + alen + blen) ==> p[k] == old(p[k])
  {
    hide Val, Shift, BPow;
    ghost var A, B := a[ao..ao+alen], b[bo..bo+blen];
    ValZeros(p[po..po+alen+0]);
    ValEmpty();
    for i := 0 to blen
      invariant Val(p[po..po+alen+i]) == Val(A) * Val(B[..i])
      invariant forall k :: po + alen + i <= k < po + alen + blen ==> p[k] == 0
      invariant forall k :: 0 <= k < p.Length && !(po <= k < po + alen + i) ==> p[k] == old(p[k])
    {
      var d := b[bo+i];
      assert d == B[i];
      assert a[ao..ao+alen] == A;
      OneRow(a, ao, alen, d, p, po, i, Val(B[..i]));
      ValPrefix(B, i);
      assert po + alen + (i + 1) == po + alen + i + 1;
    }
    assert B[..blen] == B;
  }

  /** One turn of the loop; a zero digit is skipped because its row is already in place. */
  method OneRow(a: array<Digit>, ao: nat, alen: nat, d: Digit, p: array<Digit>, po: nat, i: nat, ghost vb: int)
    requires ao + alen <= a.Length && po + alen + i + 1 <= p.Length
    requires Apart(a, ao, alen, p, po, alen + i + 1) && p[po+alen+i] == 0
    requires Val(p[po..po+alen+i]) == Val(a[ao..ao+alen]) * vb
    modifies p
    ensures Val(p[po..po+alen+i+1]) == old(Val(a[ao..ao+alen])) * (vb + Shift(d, i))
    ensures forall k :: 0 <= k < p.Length && !(po + i <= k <= po + alen + i) ==> p[k] == old(p[k])
  {
    hide Val, Shift, BPow;
    ghost var P, va := p[po..po+alen+i], Val(a[ao..ao+alen]);
    if d != 0 {
      assert P[i..] == p[po+i..po+i+alen];
      mpvecdigmuladd(a, ao, alen, d, p, po + i);
      ghost var P' := p[po..po+alen+i+1];
      assert P'[i..] == p[po+i..po+i+alen+1];
      assert forall k :: 0 <= k < i ==> P'[k] == P[k];
      RowAdded(P, P', i, alen, va, vb, d);
    } else {
      ShiftZero(0);
      ghost var P' := p[po..po+alen+i+1];
      ValTrim(P', alen + i);
      assert P'[..alen+i] == P;
    }
  }

  /** The product, whatever the lengths; p must hold zeros and share no digits with a or b. */
  method mpvecmul(a: array<Digit>, ao: nat, alen: nat, b: array<Digit>, bo: nat, blen: nat, p: array<Digit>, po: nat)
    requires ao + alen <= a.Length && bo + blen <= b.Length && po + alen + blen <= p.Length
    requires Apart(a, ao, alen, p, po, alen + blen) && Apart(b, bo, blen, p, po, alen + blen)
    requires forall k :: po <= k < po + alen + blen ==> p[k] == 0
    modifies p
    ensures Val(p[po..po+alen+blen]) == old(Val(a[ao..ao+alen])) * old(Val(b[bo..bo+blen]))
    ensures forall k :: 0 <= k < p.Length && !(po <= k < po + alen + blen) ==> p[k] == old(p[k])
    decreases Max(alen, blen), 1
  {
    hide Val, BPow, Shift;
    var x, xo, n, y, yo, m := a, ao, alen, b, bo, blen;
    if alen < blen {
      x, xo, n, y, yo, m := b, bo, blen, a, ao, alen;
    }
    if m == 0 {
      ValEmpty();
      Clear(p, po, n);
      assert po + n == po + alen + blen;
      return;
    }
    if n >= KARATSUBAMIN && m > 1 {
      mpkaratsuba(x, xo, n, y, yo, m, p, po);
    } else {
      Rows(x, xo, n, y, yo, m, p, po);
    }
    assert po + n + m == po + alen + blen;
  }

  /** Karatsuba's recursion on halves of n digits (v1 may be empty). */
  method mpkaratsuba(a: array<Digit>, ao: nat, alen: nat, b: array<Digit>, bo: nat, blen: nat, p: array<Digit>, po: nat)
    requires 2 <= alen && 1 <= blen <= alen
    requires ao + alen <= a.Length && bo + blen <= b.Length && po + alen + blen <= p.Length
    modifies p
    ensures Val(p[po..po+alen+blen]) == old(Val(a[ao..ao+alen])) * old(Val(b[bo..bo+blen]))
    ensures forall k :: 0 <= k < p.Length && !(po <= k < po + alen + blen) ==> p[k] == old(p[k])
    decreases alen, 0
  {
    hide Val, BPow;
    var n := alen / 2 + alen % 2;
    var L := 2 * n + 1;
    var t := ScratchProduct(a, ao, alen, b, bo, blen, n, L);
    CopyResult(t, 3 * L, 4 * n + 1, p, po, alen + blen, Val(a[ao..ao+alen]) * Val(b[bo..bo+blen]));
    assert po + alen + blen == po + (alen + blen);
  }

  lemma Halves(x: array<Digit>, o: nat, n: nat, m: nat, len: nat, X: seq<Digit>)
    requires n + m == len && o + len <= x.Length && X == x[o..o+len]
    ensures x[o..o+n] == X[..n] && x[o+n..o+n+m] == X[n..]
  {
  }

  /** The product in the fourth part of a scratch buffer t of 5(2n+1) digits. */
  method ScratchProduct(a: array<Digit>, ao: nat, alen: nat, b: array<Digit>, bo: nat, blen: nat, n: nat, L: nat) returns (t: array<Digit>)
    requires 2 <= alen && 1 <= blen <= alen && n == alen / 2 + alen % 2 && L == 2 * n + 1
    requires ao + alen <= a.Length && bo + blen <= b.Length
    ensures fresh(t) && t.Length == 5 * L
    ensures Val(t[3*L..3*L+(4*n+1)]) == Times(Val(a[ao..ao+alen]), Val(b[bo..bo+blen])) < BPow(alen + blen)
    decreases n, 5
  {
    hide Val, BPow, Shift, Times, Signed, Abs;
    var u1len := alen - n;
    var v0len, v1len := if blen > n then n else blen, if blen > n then blen - n else 0;
    t := new Digit[5 * L](_ => 0);
    ghost var A, B := a[ao..ao+alen], b[bo..bo+blen];
    Halves(a, ao, n, u1len, alen, A);
    Halves(b, bo, v0len, v1len, blen, B);
    var negative := HalfProducts(a, ao, n, u1len, b, bo, v0len, v1len, t, A[..n], A[n..], B[..v0len], B[v0len..]);
    ghost var x0, x1, y, w := WholeProduct(A, B, n, v0len, negative);
    assert |A| + |B| == alen + blen;
    assert a[ao..ao+alen] == A && b[bo..bo+blen] == B;
    Combine(t, n, L, n + v0len, u1len + v1len, v1len > 0, negative, x0, x1, y);
  }

  /** memmove of the result, whose digits above the product's length are zero. */
  method CopyResult(t: array<Digit>, res: nat, reslen: nat, p: array<Digit>, po: nat, len: nat, ghost x: int)
    requires res + reslen <= t.Length && po + len <= p.Length && len <= reslen && t != p
    requires Val(t[res..res+reslen]) == x && x < BPow(len)
    modifies p
    ensures Val(p[po..po+len]) == x
    ensures forall k :: 0 <= k < p.Length && !(po <= k < po + len) ==> p[k] == old(p[k])
  {
    hide Val, BPow;
    ghost var R := t[res..res+reslen];
    ValSmall(R, len);
    forall k | 0 <= k < len { p[po+k] := t[res+k]; }
    assert p[po..po+len] == R[..len];
  }

  lemma HalfBounds(x: nat, y: nat, m: nat, k: nat, n: nat)
    requires x < BPow(m) && y < BPow(k) && m <= n && k <= n
    ensures 0 <= x * y < BPow(2 * n)
  {
    hide BPow;
    ProductBound(x, y, m, k);
    BPowMonotone(m + k, 2 * n);
    ProductNonNegative(x, y);
  }

  function Signed(negative: bool, y: int): int { if negative then -y else y }

  lemma MulEq2(x: int, y: int, x': int, y': int)
    requires x == x' && y == y'
    ensures x * y == x' * y'
  {
  }

  /** The half-length products, what they add up to, and the bounds their sums stay within. */
  lemma WholeProduct(A: seq<Digit>, B: seq<Digit>, n: nat, m: nat, negative: bool)
      returns (x0: int, x1: int, y: int, w: int)
    requires 1 <= n <= |A| <= 2 * n && m <= |B| <= 2 * n && m <= n && (m == n || m == |B|)
    requires negative == ((Val(A[n..]) < Val(A[..n])) != (Val(B[..m]) < Val(B[m..])))
    ensures var u0, u1, v0, v1 := Val(A[..n]), Val(A[n..]), Val(B[..m]), Val(B[m..]);
      x0 == Times(u0, v0) && x1 == Times(u1, v1) && y == Times(Abs(u1 - u0), Abs(v0 - v1))
    ensures w == Times(Val(A), Val(B)) && w < BPow(|A| + |B|)
    ensures x0 + Shift(x0 + x1 + Signed(negative, y), n) + Shift(x1, 2 * n) == w
    ensures 0 <= x0 < BPow(2 * n) && 0 <= x1 < BPow(2 * n) && 0 <= y
    ensures x0 + x1 + Signed(negative, y) >= 0 && (m == |B| ==> x1 == 0)
    ensures w < BPow(4 * n)
  {
    hide Val, BPow, Shift;
    var u0, u1, v0, v1 := Val(A[..n]), Val(A[n..]), Val(B[..m]), Val(B[m..]);
    x0, x1, y := u0 * v0, u1 * v1, Abs(u1 - u0) * Abs(v0 - v1);
    w := Val(A) * Val(B);
    ValSplit(A, n); ValSplit(B, m);
    if m == |B| { ValEmpty(); ShiftZero(0); }
    Identity(u0, u1, v0, v1, n);
    MulEq2(Val(A), Val(B), u0 + Shift(u1, n), v0 + Shift(v1, n));
    AbsProduct(u1 - u0, v0 - v1);
    ProductNonNegative(Abs(u1 - u0), Abs(v0 - v1));
    MiddleNotNegative(u0, u1, v0, v1);
    ValBound(A[..n]); ValBound(A[n..]); ValBound(B[..m]); ValBound(B[m..]);
    HalfBounds(u0, v0, n, m, n); HalfBounds(u1, v1, |A| - n, |B| - m, n);
    ValBound(A); ValBound(B);
    ProductBound(Val(A), Val(B), |A|, |B|);
    BPowMonotone(|A| + |B|, 4 * n);
  }

  /** The three half-length products: |u1-u0|*|v0-v1|, u1*v1 and u0*v0, each in its part of the scratch. */
  method HalfProducts(a: array<Digit>, ao: nat, n: nat, u1len: nat, b: array<Digit>, bo: nat, v0len: nat, v1len: nat,
                      t: array<Digit>, ghost U0: seq<Digit>, ghost U1: seq<Digit>, ghost V0: seq<Digit>, ghost V1: seq<Digit>)
      returns (negative: bool)
    requires u1len <= n && v1len <= v0len <= n && 1 <= n && 1 <= v0len
    requires ao + n + u1len <= a.Length && bo + v0len + v1len <= b.Length
    requires t != a && t != b && t.Length == 5 * (2 * n + 1) && forall k :: 0 <= k < t.Length ==> t[k] == 0
    requires a[ao..ao+n] == U0 && a[ao+n..ao+n+u1len] == U1
    requires b[bo..bo+v0len] == V0 && b[bo+v0len..bo+v0len+v1len] == V1
    modifies t
    ensures var L := 2 * n + 1;
      && Val(t[0..0+(n+v0len)]) == Times(Val(U0), Val(V0))
      && Val(t[L..L+(u1len+v1len)]) == Times(Val(U1), Val(V1))
      && Val(t[2*L..2*L+(n+v0len)]) == Times(Abs(Val(U1) - Val(U0)), Abs(Val(V0) - Val(V1)))
    ensures negative == ((Val(U1) < Val(U0)) != (Val(V0) < Val(V1)))
    ensures forall k :: 3 * (2 * n + 1) <= k < t.Length ==> t[k] == 0
    decreases n, 4
  {
    hide Val, BPow, Times, Abs;
    var L := 2 * n + 1;
    negative := Differences(a, ao, n, u1len, b, bo, v0len, v1len, t);
    ghost var D := t[2*L..2*L+(n+v0len)];
    Clear(t, 0, 2 * L);
    assert t[2*L..2*L+(n+v0len)] == D;
    OuterProducts(a, ao, n, u1len, b, bo, v0len, v1len, t);
    assert t[2*L..2*L+(n+v0len)] == D;
    assert a[ao..ao+n] == U0 && a[ao+n..ao+n+u1len] == U1;
    assert b[bo..bo+v0len] == V0 && b[bo+v0len..bo+v0len+v1len] == V1;
  }

  /** u1*v1 and u0*v0 into the first two parts of the scratch, which hold zeros. */
  method OuterProducts(a: array<Digit>, ao: nat, n: nat, u1len: nat, b: array<Digit>, bo: nat, v0len: nat, v1len: nat, t: array<Digit>)
    requires u1len <= n && v1len <= v0len <= n && 1 <= n && 1 <= v0len
    requires ao + n + u1len <= a.Length && bo + v0len + v1len <= b.Length
    requires t != a && t != b && t.Length >= 2 * (2 * n + 1)
    requires forall k :: 0 <= k < 2 * (2 * n + 1) ==> t[k] == 0
    modifies t
    ensures Val(t[0..0+(n+v0len)]) == Times(Val(a[ao..ao+n]), Val(b[bo..bo+v0len]))
    ensures var L := 2 * n + 1;
      Val(t[L..L+(u1len+v1len)]) == Times(Val(a[ao+n..ao+n+u1len]), Val(b[bo+v0len..bo+v0len+v1len]))
    ensures forall k :: 2 * (2 * n + 1) <= k < t.Length ==> t[k] == old(t[k])
    decreases n, 3
  {
    hide Val, BPow, Times;
    var L := 2 * n + 1;
    if v1len > 0 {
      mulInto(a, ao + n, u1len, b, bo + v0len, v1len, t, L, u1len + v1len);
    } else {
      ValEmpty();
      ValZeros(t[L..L+(u1len+v1len)]);
      TimesIs(Val(a[ao+n..ao+n+u1len]), 0);
    }
    ghost var H := t[L..L+(u1len+v1len)];
    mulInto(a, ao, n, b, bo, v0len, t, 0, n + v0len);
    assert t[L..L+(u1len+v1len)] == H;
  }

  /** The product into zeros of a buffer that is neither factor's. */
  method mulInto(a: array<Digit>, ao: nat, n: nat, b: array<Digit>, bo: nat, m: nat, t: array<Digit>, o: nat, len: nat)
    requires len == n + m && ao + n <= a.Length && bo + m <= b.Length && o + len <= t.Length && t != a && t != b
    requires forall k :: o <= k < o + len ==> t[k] == 0
    modifies t
    ensures Val(t[o..o+len]) == Times(Val(a[ao..ao+n]), Val(b[bo..bo+m]))
    ensures forall k :: 0 <= k < t.Length && !(o <= k < o + len) ==> t[k] == old(t[k])
    decreases Max(n, m), 2
  {
    hide Val, BPow, Times;
    TimesIs(Val(a[ao..ao+n]), Val(b[bo..bo+m]));
    mpvecmul(a, ao, n, b, bo, m, t, o);
    assert t[o..o+len] == t[o..o+n+m];
  }

  /** The product of the two half differences. */
  method Differences(a: array<Digit>, ao: nat, n: nat, u1len: nat, b: array<Digit>, bo: nat, v0len: nat, v1len: nat,
                     t: array<Digit>) returns (negative: bool)
    requires u1len <= n && v1len <= v0len <= n && 1 <= n
    requires ao + n + u1len <= a.Length && bo + v0len + v1len <= b.Length
    requires t != a && t != b && t.Length == 5 * (2 * n + 1) && forall k :: 0 <= k < t.Length ==> t[k] == 0
    modifies t
    ensures var L := 2 * n + 1;
      var u0, u1 := Val(a[ao..ao+n]), Val(a[ao+n..ao+n+u1len]);
      var v0, v1 := Val(b[bo..bo+v0len]), Val(b[bo+v0len..bo+v0len+v1len]);
      && Val(t[2*L..2*L+(n+v0len)]) == Times(Abs(u1 - u0), Abs(v0 - v1))
      && negative == ((u1 < u0) != (v0 < v1))
    ensures forall k :: 3 * (2 * n + 1) <= k < t.Length ==> t[k] == 0
    decreases n, 2
  {
    hide Val, BPow;
    var L := 2 * n + 1;
    var uNegative := AbsDiff(a, ao, n, ao + n, u1len, true, t, 0);
    ghost var U := t[0..0+n];
    var vNegative := AbsDiff(b, bo, v0len, bo + v0len, v1len, false, t, L);
    assert t[0..0+n] == U;
    negative := uNegative != vNegative;
    TimesIs(Val(t[0..0+n]), Val(t[L..L+v0len]));
    mpvecmul(t, 0, n, t, L, v0len, t, 2 * L);
    assert 2 * L + n + v0len == 2 * L + (n + v0len);
  }

  /** The shifted additions: res = x0 + (x0 + x1)<<n + x1<<2n. */
  method SumProducts(t: array<Digit>, n: nat, L: nat, len0: nat, len1: nat, high: bool, ghost x0: int, ghost x1: int)
    requires n >= 1 && L == 2 * n + 1 && len0 <= 2 * n && len1 <= 2 * n && t.Length == 5 * L
    requires forall k :: 3 * L <= k < t.Length ==> t[k] == 0
    requires Val(t[0..0+len0]) == x0 && Val(t[L..L+len1]) == x1 && (!high ==> x1 == 0)
    requires 0 <= x0 < BPow(2 * n) && 0 <= x1 < BPow(2 * n)
    modifies t
    ensures Val(t[3*L..3*L+(4*n+1)]) == x0 + Shift(x0, n) + Shift(x1, n) + Shift(x1, 2 * n)
    ensures forall k :: 0 <= k < 3 * L ==> t[k] == old(t[k])
  {
    hide Val, BPow, Shift;
    var res, len := 3 * L, 4 * n + 1;
    PartialSums(x0, x1, n);
    ValZeros(t[res..res+len]);
    ShiftZero(x0);
    ghost var Z, X := t[0..0+len0], t[L..L+len1];
    AddAt(t, res, len, 0, 0, len0);
    assert t[0..0+len0] == Z;
    AddAt(t, res, len, n, 0, len0);
    if high {
      assert t[L..L+len1] == X;
      AddAt(t, res, len, n, L, len1);
      assert t[L..L+len1] == X;
      AddAt(t, res, len, 2 * n, L, len1);
    }
  }

  /** The sums and then the signed middle part: res = x0 + (x0 + x1 +- y)<<n + x1<<2n. */
  method Combine(t: array<Digit>, n: nat, L: nat, len0: nat, len1: nat, high: bool, negative: bool, ghost x0: int, ghost x1: int, ghost y: int)
    requires n >= 1 && L == 2 * n + 1 && len0 <= 2 * n && len1 <= 2 * n && t.Length == 5 * L
    requires forall k :: 3 * L <= k < t.Length ==> t[k] == 0
    requires Val(t[0..0+len0]) == x0 && Val(t[L..L+len1]) == x1 && Val(t[2*L..2*L+len0]) == y
    requires 0 <= x0 < BPow(2 * n) && 0 <= x1 < BPow(2 * n) && 0 <= y && (!high ==> x1 == 0)
    requires x0 + x1 + Signed(negative, y) >= 0
    requires x0 + Shift(x0 + x1 + Signed(negative, y), n) + Shift(x1, 2 * n) < BPow(4 * n)
    modifies t
    ensures Val(t[3*L..3*L+(4*n+1)]) == x0 + Shift(x0 + x1 + Signed(negative, y), n) + Shift(x1, 2 * n)
  {
    hide Val, BPow, Shift, Signed;
    var res, len := 3 * L, 4 * n + 1;
    ghost var Y := t[2*L..2*L+len0];
    SumProducts(t, n, L, len0, len1, high, x0, x1);
    assert t[2*L..2*L+len0] == Y;
    MiddleShift(x0, x1, y, n, negative);
    PartialSums(x0, x1, n);
    ShiftMono(0, x0 + x1 + Signed(negative, y), n);
    ShiftZero(0);
    BPowMonotone(4 * n, 4 * n + 1);
    if negative {
      SubAt(t, res, len, n, 2 * L, len0);
    } else {
      AddAt(t, res, len, n, 2 * L, len0);
    }
  }

  lemma MiddleShift(x0: int, x1: int, y: int, n: nat, negative: bool)
    ensures Shift(x0 + x1 + Signed(negative, y), n)
      == Shift(x0, n) + Shift(x1, n) + (if negative then -Shift(y, n) else Shift(y, n))
  {
    hide Shift;
    ShiftLinear(x0, x1, n);
    ShiftLinear(x0 + x1, y, n);
  }

  // ------------------------------------------------------------------- mpmul

  method mpmul(b1: MpInt, b2: MpInt, prod: MpInt)
    requires b1.Valid() && b2.Valid() && prod.Shape() && Own(b1, prod) && Own(b2, prod)
    modifies prod, prod.p
    ensures prod.Valid() && prod.V() == old(b1.V()) * old(b2.V()) && (prod.top == 0 ==> prod.sign == 1)
    ensures prod.p == old(prod.p) || fresh(prod.p)
  {
    var r := prod;
    if prod == b1 || prod == b2 {
      r := new MpInt(0);
    }
    MulInto(b1, b2, r);
    if r != prod {
      mpassign(r, prod);
    }
  }

  /** The digits of the product, for a destination that is neither factor. */
  method MulDigits(b1: MpInt, b2: MpInt, prod: MpInt)
    requires b1.Valid() && b2.Valid() && prod.Shape()
    requires prod != b1 && prod != b2 && prod.p != b1.p && prod.p != b2.p
    modifies prod, prod.p
    ensures prod.Shape() && prod.Mag() == b1.Mag() * b2.Mag()
    ensures prod.p == old(prod.p) || fresh(prod.p)
  {
    hide Val;
    var n1, n2 := b1.top, b2.top;
    prod.top := 0;
    mpbits(prod, (n1 + n2 + 1) * DBITS);
    assert b1.p[0..0+n1] == b1.p[..n1] && b2.p[0..0+n2] == b2.p[..n2];
    mpvecmul(b1.p, 0, n1, b2.p, 0, n2, prod.p, 0);
    assert 0 + n1 + n2 == 0 + (n1 + n2);
    assert b1.p[0..0+n1] == b1.p[..n1] && b2.p[0..0+n2] == b2.p[..n2];
    prod.top := n1 + n2 + 1;
    assert prod.p[n1+n2] == 0;
    TopZeros(prod.p, n1 + n2, prod.top);
  }

  method MulInto(b1: MpInt, b2: MpInt, prod: MpInt)
    requires b1.Valid() && b2.Valid() && prod.Shape()
    requires prod != b1 && prod != b2 && prod.p != b1.p && prod.p != b2.p
    modifies prod, prod.p
    ensures prod.Valid() && prod.V() == b1.V() * b2.V() && (prod.top == 0 ==> prod.sign == 1)
    ensures prod.p == old(prod.p) || fresh(prod.p)
  {
    hide Val;
    MulDigits(b1, b2, prod);
    SignedProduct(b1.Mag(), b2.Mag(), b1.sign, b2.sign);
    prod.sign := b1.sign * b2.sign;
    mpnorm(prod);
    MagIsZero(prod);
  }

  lemma TopZeros(p: array<Digit>, n: nat, top: nat)
    requires n <= top <= p.Length && forall k :: n <= k < top ==> p[k] == 0
    ensures Val(p[..top]) == Val(p[0..0+n])
  {
    hide Val;
    ValTrim(p[..top], n);
    assert p[..top][..n] == p[0..0+n];
  }

  lemma SignedProduct(x: int, y: int, s: int, t: int)
    requires (s == 1 || s == -1) && (t == 1 || t == -1)
    ensures (if s < 0 then -x else x) * (if t < 0 then -y else y) == (if s * t < 0 then -(x * y) else x * y)
    ensures s * t == 1 || s * t == -1
  {
  }
}
