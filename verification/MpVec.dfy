/** The digit-vector primitives of libmp, on cells of shared arrays. */
module MpVec {
  import opened Digits

  /** 32-bit wrap-around. */
  function Wrap(x: int): (d: Digit)
  {
    x % BASE
  }

  lemma WrapSmall(x: int)
    requires 0 <= x < BASE
    ensures Wrap(x) == x
  {
  }

  lemma WrapBorrow(x: Digit, h: int)
    requires 0 <= h < BASE
    ensures Wrap(x as int - h) == if h <= x then x - h else x - h + BASE
  {
  }

  /** Products behind a name, so that sums of them stay linear. */
  function Times(x: int, y: int): int { x * y }

  lemma TimesIs(x: int, y: int)
    ensures Times(x, y) == x * y
  {
  }

  lemma TimesLinear(m: int, x: int, y: int)
    ensures Times(m, x + y) == Times(m, x) + Times(m, y)
  {
  }

  lemma TimesShift(m: int, x: int, n: nat)
    ensures Times(m, Shift(x, n)) == Shift(Times(m, x), n)
  {
    ShiftScale(m, x, n);
  }

  lemma ValPrefix(A: seq<Digit>, i: nat)
    requires i < |A|
    ensures Val(A[..i+1]) == Val(A[..i]) + Shift(A[i], i)
  {
    assert A[..i+1] == A[..i] + [A[i]];
    ValAppend(A[..i], A[i]);
  }

  // ---------------------------------------------------------------- mpvecadd

  lemma AddAlg(n: nat, c: int, x: int, y: int, z: int, c': int)
    requires z + BASE * c' == x + y + c
    ensures Shift(z, n) + Shift(c', n + 1) == Shift(x, n) + Shift(y, n) + Shift(c, n)
  {
    hide Shift, BPow;
    ShiftUp(c', n);
    ShiftLinear(z, BASE * c', n);
    ShiftLinear(x + y, c, n);
    ShiftLinear(x, y, n);
  }

  /** What the two overflow tests of the first C loop compute. */
  lemma AddDigit(x: Digit, y: Digit, c: int, z: Digit, c': int)
    requires 0 <= c <= 1
    requires z == Wrap(Wrap(x as int + c) as int + y)
    requires c' == (if Wrap(x as int + c) < c then 1 else 0) + (if z < y then 1 else 0)
    ensures z + BASE * c' == x as int + y + c && 0 <= c' <= 1
  {
  }

  lemma CarryDigit(x: Digit, c: int, z: Digit, c': int)
    requires 0 <= c < BASE && z == Wrap(x as int + c) && c' == (if z < c then 1 else 0)
    ensures z + BASE * c' == x as int + c && 0 <= c' <= 1
  {
  }

  /** The digits S and the carry are the sum of the first i digits of A and B, or with the borrow their difference. */
  ghost predicate Summed(S: seq<Digit>, c: int, A: seq<Digit>, B: seq<Digit>, i: nat)
  {
    |S| == i <= |A| == |B| && Val(S) + Shift(c, i) == Val(A[..i]) + Val(B[..i])
  }

  ghost predicate Differs(S: seq<Digit>, c: int, A: seq<Digit>, B: seq<Digit>, i: nat)
  {
    |S| == i <= |A| == |B| && Val(S) - Shift(c, i) == Val(A[..i]) - Val(B[..i])
  }

  lemma NoDigits(A: seq<Digit>, B: seq<Digit>)
    requires |A| == |B|
    ensures Summed([], 0, A, B, 0) && Differs([], 0, A, B, 0)
  {
    hide Val, Shift;
    ShiftZero(0); ValEmpty();
  }

  lemma AllDigits(S: seq<Digit>, c: int, A: seq<Digit>, B: seq<Digit>)
    requires |S| == |A|
    ensures Summed(S, c, A, B, |S|) ==> Val(S) + Shift(c, |S|) == Val(A) + Val(B)
    ensures Differs(S, c, A, B, |S|) ==> Val(S) - Shift(c, |S|) == Val(A) - Val(B)
  {
    hide Val, Shift;
    assert A[..|S|] == A;
    if |A| == |B| { assert B[..|S|] == B; }
  }

  lemma AddStep(S: seq<Digit>, A: seq<Digit>, B: seq<Digit>, i: nat, c: int, z: Digit, c': int)
    requires i < |A| && Summed(S, c, A, B, i) && |A| == |B|
    requires z + BASE * c' == A[i] as int + B[i] + c
    ensures Summed(S + [z], c', A, B, i + 1)
  {
    hide Val, Shift, BPow;
    ValAppend(S, z);
    ValPrefix(A, i);
    ValPrefix(B, i);
    AddAlg(i, c, A[i], B[i], z, c');
  }

  /** B padded with zeros to n digits. */
  ghost function Pad(B: seq<Digit>, n: nat): (r: seq<Digit>)
    requires |B| <= n
    ensures |r| == n && Val(r) == Val(B)
    ensures forall k :: 0 <= k < n ==> r[k] == if k < |B| then B[k] else 0
  {
    var r := B + seq(n - |B|, _ => 0 as Digit);
    assert r[..|B|] == B;
    ValTrim(r, |B|);
    r
  }

  method mpvecadd(a: array<Digit>, ao: nat, alen: nat, b: array<Digit>, bo: nat, blen: nat,
                  sum: array<Digit>, so: nat)
    requires alen >= blen
    requires ao + alen <= a.Length && bo + blen <= b.Length && so + alen + 1 <= sum.Length
    requires Behind(sum, so, a, ao, alen) && Behind(sum, so, b, bo, blen)
    modifies sum
    ensures Val(sum[so..so+alen+1]) == old(Val(a[ao..ao+alen])) + old(Val(b[bo..bo+blen]))
    ensures forall k :: 0 <= k < sum.Length && !(so <= k <= so + alen) ==> sum[k] == old(sum[k])
  {
    hide Val, Shift, BPow, Pad, Wrap, Summed, Differs;
    ghost var A: seq<Digit> := a[ao..ao+alen];
    ghost var B: seq<Digit> := Pad(b[bo..bo+blen], alen);
    ghost var S: seq<Digit> := [];
    NoDigits(A, B);
    var carry: int := 0;
    var i := 0;
    while i < blen
      invariant i <= blen && |S| == i && 0 <= carry <= 1
      invariant forall k :: 0 <= k < i ==> sum[so+k] == S[k]
      invariant Summed(S, carry, A, B, i)
      invariant forall k :: 0 <= k < sum.Length && !(so <= k < so + i) ==> sum[k] == old(sum[k])
    {
      ghost var c0 := carry;
      var x: int, y: int := a[ao+i], b[bo+i];
      assert x == A[i] && y == B[i];
      x := Wrap(x + carry);
      carry := if x < carry then 1 else 0;
      x := Wrap(x + y);
      carry := carry + if x < y then 1 else 0;
      AddDigit(A[i], y, c0, x, carry);
      AddStep(S, A, B, i, c0, x, carry);
      sum[so+i] := x;
      S := S + [x];
      i := i + 1;
    }
    while i < alen
      invariant blen <= i <= alen && |S| == i && 0 <= carry <= 1
      invariant forall k :: 0 <= k < i ==> sum[so+k] == S[k]
      invariant Summed(S, carry, A, B, i)
      invariant forall k :: 0 <= k < sum.Length && !(so <= k < so + i) ==> sum[k] == old(sum[k])
    {
      ghost var c0 := carry;
      var x: int := a[ao+i];
      assert x == A[i] && B[i] == 0;
      x := Wrap(x + carry);
      carry := if x < carry then 1 else 0;
      CarryDigit(A[i], c0, x, carry);
      AddStep(S, A, B, i, c0, x, carry);
      sum[so+i] := x;
      S := S + [x];
      i := i + 1;
    }
    AllDigits(S, carry, A, B);
    sum[so+alen] := carry;
    assert sum[so..so+alen+1] == S + [carry];
    ValAppend(S, carry);
  }

  // ---------------------------------------------------------------- mpvecsub

  lemma SubAlg(n: nat, c: int, x: int, y: int, z: int, c': int)
    requires z - BASE * c' == x - y - c
    ensures Shift(z, n) - Shift(c', n + 1) == Shift(x, n) - Shift(y, n) - Shift(c, n)
  {
    hide Shift, BPow;
    ShiftUp(c', n);
    ShiftLinear(z, BASE * c', n);
    ShiftLinear(x - y, c, n);
    ShiftLinear(x, y, n);
  }

  /** What the borrow tests of the first C loop compute, and then of the second. */
  lemma SubDigit(x: Digit, y: Digit, c: int, z: Digit, c': int)
    requires 0 <= c <= 1
    requires z == Wrap(x as int - Wrap(y as int + c))
    requires c' == (if Wrap(y as int + c) < c then 1 else 0) + (if x < Wrap(y as int + c) then 1 else 0)
    ensures z - BASE * c' == x as int - y - c && 0 <= c' <= 1
  {
  }

  lemma BorrowDigit(x: Digit, c: int, z: Digit, c': int)
    requires 0 <= c < BASE && z == Wrap(x as int - c) && c' == (if z > x then 1 else 0)
    ensures z - BASE * c' == x as int - c && 0 <= c' <= 1
  {
  }

  lemma SubStep(S: seq<Digit>, A: seq<Digit>, B: seq<Digit>, i: nat, c: int, z: Digit, c': int)
    requires i < |A| && Differs(S, c, A, B, i) && |A| == |B|
    requires z - BASE * c' == A[i] as int - B[i] - c
    ensures Differs(S + [z], c', A, B, i + 1)
  {
    hide Val, Shift, BPow;
    ValAppend(S, z);
    ValPrefix(A, i);
    ValPrefix(B, i);
    SubAlg(i, c, A[i], B[i], z, c');
  }

  method mpvecsub(a: array<Digit>, ao: nat, alen: nat, b: array<Digit>, bo: nat, blen: nat,
                  diff: array<Digit>, d: nat)
    requires alen >= blen
    requires ao + alen <= a.Length && bo + blen <= b.Length && d + alen <= diff.Length
    requires Behind(diff, d, a, ao, alen) && Behind(diff, d, b, bo, blen)
    requires Val(a[ao..ao+alen]) >= Val(b[bo..bo+blen])
    modifies diff
    ensures Val(diff[d..d+alen]) == old(Val(a[ao..ao+alen])) - old(Val(b[bo..bo+blen]))
    ensures forall k :: 0 <= k < diff.Length && !(d <= k < d + alen) ==> diff[k] == old(diff[k])
  {
    hide Val, Shift, BPow, Pad, Wrap, Summed, Differs;
    ghost var A: seq<Digit> := a[ao..ao+alen];
    ghost var B: seq<Digit> := Pad(b[bo..bo+blen], alen);
    ghost var S: seq<Digit> := [];
    NoDigits(A, B);
    var borrow: int := 0;
    var i := 0;
    while i < blen
      invariant i <= blen && |S| == i && 0 <= borrow <= 1
      invariant forall k :: 0 <= k < i ==> diff[d+k] == S[k]
      invariant Differs(S, borrow, A, B, i)
      invariant forall k :: 0 <= k < diff.Length && !(d <= k < d + i) ==> diff[k] == old(diff[k])
    {
      ghost var c0 := borrow;
      var x: int, y: int := a[ao+i], b[bo+i];
      assert x == A[i] && y == B[i];
      y := Wrap(y + borrow);
      borrow := if y < borrow then 1 else 0;
      borrow := borrow + if x < y then 1 else 0;
      var z := Wrap(x - y);
      SubDigit(A[i], B[i], c0, z, borrow);
      SubStep(S, A, B, i, c0, z, borrow);
      diff[d+i] := z;
      S := S + [z];
      i := i + 1;
    }
    while i < alen
      invariant blen <= i <= alen && |S| == i && 0 <= borrow <= 1
      invariant forall k :: 0 <= k < i ==> diff[d+k] == S[k]
      invariant Differs(S, borrow, A, B, i)
      invariant forall k :: 0 <= k < diff.Length && !(d <= k < d + i) ==> diff[k] == old(diff[k])
    {
      ghost var c0 := borrow;
      var x: int := a[ao+i];
      assert x == A[i] && B[i] == 0;
      var y := Wrap(x - borrow);
      borrow := if y > x then 1 else 0;
      BorrowDigit(A[i], c0, y, borrow);
      SubStep(S, A, B, i, c0, y, borrow);
      diff[d+i] := y;
      S := S + [y];
      i := i + 1;
    }
    NoBorrow(S, borrow, A, B);
    assert diff[d..d+alen] == S;
  }

  /** No borrow is left when the difference is not negative. */
  lemma NoBorrow(S: seq<Digit>, c: int, A: seq<Digit>, B: seq<Digit>)
    requires Differs(S, c, A, B, |S|) && |S| == |A| && 0 <= c <= 1 && Val(A) >= Val(B)
    ensures Val(S) == Val(A) - Val(B)
  {
    hide Val, Shift, BPow, Summed, Differs;
    AllDigits(S, c, A, B);
    ValBound(S);
    ShiftIsPow(|S|);
    ShiftZero(|S|);
  }

  // --------------------------------------------------------------- mpveccmp

  function Sign(x: int): int { if x < 0 then -1 else if x > 0 then 1 else 0 }

  /** A vector with a non-zero digit at m exceeds every vector of m digits or fewer. */
  lemma LongerWins(A: seq<Digit>, m: nat, B: seq<Digit>)
    requires |B| <= m < |A| && A[m] != 0 && forall k :: m < k < |A| ==> A[k] == 0
    ensures Val(A) > Val(B)
  {
    hide Val, BPow;
    ValTrim(A, m + 1);
    ValLead(A[..m+1]);
    ValBound(B);
    BPowMonotone(|B|, m);
  }

  method mpveccmp(a: array<Digit>, ao: nat, alen: nat, b: array<Digit>, bo: nat, blen: nat) returns (r: int)
    requires ao + alen <= a.Length && bo + blen <= b.Length
    ensures r == Sign(Val(a[ao..ao+alen]) - Val(b[bo..bo+blen]))
  {
    hide Val, BPow;
    ghost var A: seq<Digit>, B: seq<Digit> := a[ao..ao+alen], b[bo..bo+blen];
    var m, n := alen, blen;
    while m > n
      invariant n <= m <= alen || m == alen
      invariant forall k :: m <= k < alen ==> A[k] == 0
    {
      m := m - 1;
      if a[ao+m] != 0 {
        LongerWins(A, m, B);
        return 1;
      }
    }
    while n > m
      invariant m <= n <= blen || n == blen
      invariant forall k :: n <= k < blen ==> B[k] == 0
    {
      n := n - 1;
      if b[bo+n] != 0 {
        ValTrim(A, m);
        LongerWins(B, n, A[..m]);
        return -1;
      }
    }
    ValTrim(A, m);
    ValTrim(B, n);
    ghost var C: seq<Digit>, D: seq<Digit> := A[..m], B[..n];
    while m > 0
      invariant 0 <= m <= |C| == |D|
      invariant C[m..] == D[m..]
    {
      m := m - 1;
      var p: int, q: int := a[ao+m], b[bo+m];
      var x := Wrap(p - q);
      assert A[m] == p && B[m] == q;
      assert C[m] == p && D[m] == q;
      if x != 0 {
        if x > p {
          TopDecides(C, D, m);
          return -1;
        } else {
          TopDecides(D, C, m);
          return 1;
        }
      }
    }
    assert C == D;
    return 0;
  }

  // ----------------------------------------------- mpdigmul, mpvecdigmuladd

  const HALF: int := 0x1_0000

  lemma HalfProduct(ah: int, al: int, bh: int, bl: int)
    ensures (ah * HALF + al) * (bh * HALF + bl) == ah * bh * BASE + (ah * bl + bh * al) * HALF + bl * al
  {
  }

  lemma HalfBound(x: int, y: int)
    requires 0 <= x < HALF && 0 <= y < HALF
    ensures 0 <= x * y <= (HALF - 1) * (HALF - 1)
  {
    MulMono(0, x, y);
    MulMono(x, HALF - 1, y);
    MulMono(y, HALF - 1, HALF - 1);
  }

  /** The carries of the two half-digit shifts are exactly what the C tests count. */
  lemma HalfCarry(p1: int, p2: int, p3: int, lo: Digit, carry: int)
    requires 0 <= p1 <= (HALF-1)*(HALF-1) && 0 <= p2 <= (HALF-1)*(HALF-1) && 0 <= p3 <= (HALF-1)*(HALF-1)
    requires var x1, x2 := Wrap(p1 * HALF), Wrap(p2 * HALF);
      var y1 := Wrap(p3 + x1);
      lo == Wrap(y1 as int + x2) && carry == (if y1 < x1 then 1 else 0) + (if lo < x2 then 1 else 0)
    ensures lo + BASE * (carry + p1 / HALF + p2 / HALF) == (p1 + p2) * HALF + p3
  {
    WrapHalf(p1);
    WrapHalf(p2);
    HalfCarries(p1 / HALF, p1 % HALF, p2 / HALF, p2 % HALF, p3, lo, carry);
  }

  lemma WrapHalf(p: int)
    requires 0 <= p
    ensures Wrap(p * HALF) == (p % HALF) * HALF && p == p / HALF * HALF + p % HALF
  {
  }

  lemma HalfCarries(q1: int, r1: int, q2: int, r2: int, p3: int, lo: Digit, carry: int)
    requires 0 <= r1 < HALF && 0 <= r2 < HALF && 0 <= p3 <= (HALF-1)*(HALF-1)
    requires var x1, x2 := r1 * HALF, r2 * HALF;
      var y1 := Wrap(p3 + x1);
      lo == Wrap(y1 as int + x2) && carry == (if y1 < x1 then 1 else 0) + (if lo < x2 then 1 else 0)
    ensures lo + BASE * (carry + q1 + q2) == (q1 * HALF + r1 + (q2 * HALF + r2)) * HALF + p3
  {
  }

  /** Two-digit product of two digits from half-digit products. */
  method mpdigmul(a: Digit, b: Digit) returns (lo: Digit, hi: Digit)
    ensures lo + BASE * hi == a * b
  {
    var ah, al := a / HALF, a % HALF;
    var bh, bl := b / HALF, b % HALF;
    var p1: int, p2: int, p3: int, p4: int := ah * bl, bh * al, bl * al, ah * bh;
    HalfProduct(ah, al, bh, bl);
    HalfBound(ah, bl); HalfBound(bh, al); HalfBound(bl, al); HalfBound(ah, bh);
    ghost var q3 := p3;
    var carry := 0;
    var x := Wrap(p1 * HALF);
    p3 := Wrap(p3 + x);
    if p3 < x { carry := carry + 1; }
    x := Wrap(p2 * HALF);
    p3 := Wrap(p3 + x);
    if p3 < x { carry := carry + 1; }
    HalfCarry(p1, p2, q3, p3, carry);
    p4 := p4 + carry + p1 / HALF + p2 / HALF;
    lo, hi := p3, p4;
  }

  lemma DigitProductBound(a: Digit, b: Digit)
    ensures a * b <= (BASE - 1) * (BASE - 1)
  {
    MulMono(a, BASE - 1, b);
    MulMono(b, BASE - 1, BASE - 1);
  }

  lemma MulAddAlg(n: nat, m: int, vb: int, h: int, x: int, y: int, z: int, h': int)
    requires z + BASE * h' == y + Times(m, x) + h
    ensures Shift(z, n) + Shift(h', n + 1) + Times(m, vb) == Shift(y, n) + Times(m, vb + Shift(x, n)) + Shift(h, n)
  {
    hide Shift, BPow, Times;
    ShiftUp(h', n);
    ShiftLinear(z, BASE * h', n);
    ShiftLinear(y + Times(m, x), h, n);
    ShiftLinear(y, Times(m, x), n);
    TimesShift(m, x, n);
    TimesLinear(m, vb, Shift(x, n));
  }

  /** One digit of a multiply-and-add; no carry is lost because y + m*x + h fits two digits. */
  lemma MulAddCarry(m: Digit, x: Digit, y: Digit, h: Digit, lo: Digit, hi: Digit, z: Digit, c: int)
    requires lo + BASE * hi == m * x
    requires z == Wrap(Wrap(h as int + lo) as int + y)
    requires c == (if Wrap(h as int + lo) < lo then 1 else 0) + (if z < y then 1 else 0)
    ensures z + BASE * (hi + c) == y + Times(m, x) + h
    ensures hi + c < BASE && 0 <= c <= 2
  {
    DigitProductBound(m, x);
    var mx := m * x;
    assert mx <= (BASE - 1) * (BASE - 1);
  }

  lemma MulAddStep(S: seq<Digit>, P: seq<Digit>, B: seq<Digit>, m: int, i: nat, h: int, z: Digit, h': int)
    requires |S| == i < |P| == |B|
    requires Val(S) + Shift(h, i) == Val(P[..i]) + Times(m, Val(B[..i]))
    requires z + BASE * h' == P[i] + Times(m, B[i]) + h
    ensures Val(S + [z]) + Shift(h', i + 1) == Val(P[..i+1]) + Times(m, Val(B[..i+1]))
  {
    hide Val, Shift, Times, BPow;
    ValAppend(S, z);
    ValPrefix(P, i);
    ValPrefix(B, i);
    MulAddAlg(i, m, Val(B[..i]), h, B[i], P[i], z, h');
  }

  method mpvecdigmuladd(b: array<Digit>, bo: nat, n: nat, m: Digit, p: array<Digit>, po: nat)
    requires bo + n <= b.Length && po + n + 1 <= p.Length
    requires Behind(p, po, b, bo, n)
    modifies p
    ensures Val(p[po..po+n+1]) == old(Val(p[po..po+n])) + m * old(Val(b[bo..bo+n]))
    ensures forall k :: 0 <= k < p.Length && !(po <= k <= po + n) ==> p[k] == old(p[k])
  {
    hide Val, Shift, BPow, Times, Wrap;
    ghost var P: seq<Digit>, B: seq<Digit> := p[po..po+n], b[bo..bo+n];
    ghost var S: seq<Digit> := [];
    var carry: int, part0: int, part1: int := 0, 0, 0;
    ShiftZero(0); ValEmpty(); TimesIs(m, 0);
    for i := 0 to n
      invariant |S| == i && 0 <= carry <= 2 && 0 <= part1 && part1 + carry < BASE
      invariant forall k :: 0 <= k < i ==> p[po+k] == S[k]
      invariant Val(S) + Shift(part1 + carry, i) == Val(P[..i]) + Times(m, Val(B[..i]))
      invariant forall k :: 0 <= k < p.Length && !(po <= k < po + i) ==> p[k] == old(p[k])
    {
      ghost var h, c0 := part1 + carry, carry;
      var x: int := Wrap(part1 + carry);
      carry := if x < carry then 1 else 0;
      CarryDigit(part1, c0, x, carry);
      var y: int := p[po+i];
      assert b[bo+i] == B[i] && p[po+i] == P[i];
      part0, part1 := mpdigmul(b[bo+i], m);
      x := Wrap(x + part0);
      carry := carry + if x < part0 then 1 else 0;
      x := Wrap(x + y);
      carry := carry + if x < y then 1 else 0;
      MulAddCarry(m, B[i], P[i], h, part0, part1, x, carry);
      MulAddStep(S, P, B, m, i, h, x, part1 + carry);
      p[po+i] := x;
      S := S + [x];
    }
    assert P[..n] == P && B[..n] == B;
    WrapSmall(part1 + carry);
    p[po+n] := Wrap(part1 + carry);
    assert p[po+n] == part1 + carry;
    assert p[po..po+n+1] == S + [part1 + carry];
    ValAppend(S, part1 + carry);
    TimesIs(m, Val(B));
  }

  // ------------------------------------------------------- mpvecdigmulsub

  lemma MulSubAlg(n: nat, m: int, vb: int, h: int, x: int, y: int, z: int, h': int)
    requires z - BASE * h' == y - Times(m, x) - h
    ensures Shift(z, n) - Shift(h', n + 1) - Times(m, vb) == Shift(y, n) - Times(m, vb + Shift(x, n)) - Shift(h, n)
  {
    hide Shift, BPow, Times;
    ShiftUp(h', n);
    ShiftLinear(z, BASE * h', n);
    ShiftLinear(y - Times(m, x), h, n);
    ShiftLinear(y, Times(m, x), n);
    TimesShift(m, x, n);
    TimesLinear(m, vb, Shift(x, n));
  }

  /** One digit of a multiply-and-subtract, from the three tests of the C loop. */
  lemma MulSubBorrow(m: Digit, x: Digit, p: Digit, part: Digit, b0: int, lo: Digit, hi: Digit, y: Digit, t: Digit, z: Digit)
    requires lo + BASE * hi == m * x && 0 <= b0 <= 3
    requires y == Wrap(p as int - b0) && t == Wrap(part as int + lo) && z == Wrap(y as int - t)
    ensures z - BASE * (hi + (if y > p then 1 else 0) + (if t < lo then 1 else 0) + (if z > y then 1 else 0))
      == p - Times(m, x) - (part + b0)
  {
    BorrowDigit(p, b0, y, if y > p then 1 else 0);
    BorrowDigit(y, t, z, if z > y then 1 else 0);
    CarryDigit(part, lo, t, if t < lo then 1 else 0);
  }

  lemma MulSubStep(S: seq<Digit>, P: seq<Digit>, B: seq<Digit>, m: int, i: nat, h: int, z: Digit, h': int)
    requires |S| == i < |P| && i < |B|
    requires Val(S) - Shift(h, i) == Val(P[..i]) - Times(m, Val(B[..i]))
    requires z - BASE * h' == P[i] - Times(m, B[i]) - h
    ensures Val(S + [z]) - Shift(h', i + 1) == Val(P[..i+1]) - Times(m, Val(B[..i+1]))
  {
    hide Val, Shift, Times, BPow;
    ValAppend(S, z);
    ValPrefix(P, i);
    ValPrefix(B, i);
    MulSubAlg(i, m, Val(B[..i]), h, B[i], P[i], z, h');
  }

  /** The last borrow never exceeds the multiplier, so it fits a digit. */
  lemma BorrowBound(S: seq<Digit>, h: int, vp: nat, vb: nat, m: Digit)
    requires Val(S) - Shift(h, |S|) == vp - Times(m, vb)
    requires vb <= BPow(|S|)
    ensures h <= m
  {
    hide Val;
    var n := |S|;
    ValBound(S);
    if h > m {
      ShiftMono(m + 1, h, n);
      ShiftLinear(m, 1, n);
      ShiftIsPow(n);
      MulMono(vb, BPow(n), m);
    }
  }

  /** Last digit of a multiply-and-subtract: its wrap-around is the sign of the result. */
  lemma SubLast(S: seq<Digit>, h: int, P: seq<Digit>, vb: nat, m: Digit, x: Digit, y: Digit)
    requires |S| == |P|
    requires Val(S) - Shift(h, |S|) == Val(P) - Times(m, vb)
    requires 0 <= h < BASE && y == (if h <= x then x - h else x - h + BASE)
    ensures Val(S + [y]) == Val(P + [x]) - Times(m, vb) + (if y > x then BPow(|S| + 1) else 0)
    ensures y > x <==> Val(P + [x]) < Times(m, vb)
  {
    hide Val, Shift, Times, BPow;
    var n := |S|;
    ValAppend(S, y);
    ValAppend(P, x);
    LastDigit(h, x, y, n);
    ValBound(S + [y]);
    LastSign(Val(S + [y]), Val(P + [x]), Times(m, vb), BPow(n + 1), y > x);
  }

  lemma LastDigit(h: int, x: Digit, y: Digit, n: nat)
    requires 0 <= h < BASE && y == (if h <= x then x - h else x - h + BASE)
    ensures Shift(y, n) == Shift(x, n) - Shift(h, n) + (if y > x then BPow(n + 1) else 0)
  {
    hide Shift, BPow;
    ShiftLinear(x, h, n);
    ShiftLinear(x - h, BASE, n);
    ShiftIsPow(n);
  }

  lemma LastSign(s: int, p: int, t: int, w: int, over: bool)
    requires 0 <= s < w && s == p - t + (if over then w else 0)
    ensures over <==> p < t
  {
  }

  /** The loop over the digits of b; the digits written are S, and what is owed to the next one is part1 + borrow. */
  method mulSubDigits(b: array<Digit>, bo: nat, n: nat, m: Digit, p: array<Digit>, po: nat)
      returns (part1: int, borrow: int, ghost S: seq<Digit>)
    requires bo + n <= b.Length && po + n + 1 <= p.Length
    requires Behind(p, po, b, bo, n)
    modifies p
    ensures |S| == n && 0 <= borrow <= 3 && 0 <= part1 < BASE && p[po..po+n] == S
    ensures Val(S) - Shift(part1 + borrow, n) == Val(old(p[po..po+n])) - Times(m, Val(old(b[bo..bo+n])))
    ensures forall k :: 0 <= k < p.Length && !(po <= k < po + n) ==> p[k] == old(p[k])
  {
    hide Val, Shift, BPow, Times, Wrap;
    ghost var P: seq<Digit>, B: seq<Digit> := p[po..po+n], b[bo..bo+n];
    S := [];
    borrow, part1 := 0, 0;
    var part0 := 0;
    ShiftZero(0); ValEmpty(); TimesIs(m, 0);
    for i := 0 to n
      invariant |S| == i && 0 <= borrow <= 3 && 0 <= part1 < BASE
      invariant forall k :: 0 <= k < i ==> p[po+k] == S[k]
      invariant Val(S) - Shift(part1 + borrow, i) == Val(P[..i]) - Times(m, Val(B[..i]))
      invariant forall k :: 0 <= k < p.Length && !(po <= k < po + i) ==> p[k] == old(p[k])
    {
      ghost var b0, h := borrow, part1;
      var x: int := p[po+i];
      var y: int := Wrap(x - borrow);
      borrow := if y > x then 1 else 0;
      x := part1;
      assert b[bo+i] == B[i] && p[po+i] == P[i];
      part0, part1 := mpdigmul(b[bo+i], m);
      x := Wrap(x + part0);
      borrow := borrow + if x < part0 then 1 else 0;
      ghost var t := x;
      x := Wrap(y - x);
      borrow := borrow + if x > y then 1 else 0;
      MulSubBorrow(m, B[i], P[i], h, b0, part0, part1, y, t, x);
      MulSubStep(S, P, B, m, i, h + b0, x, part1 + borrow);
      p[po+i] := x;
      S := S + [x];
    }
    assert P[..n] == P && B[..n] == B;
  }

  method mpvecdigmulsub(b: array<Digit>, bo: nat, n: nat, m: Digit, p: array<Digit>, po: nat) returns (r: int)
    requires bo + n <= b.Length && po + n + 1 <= p.Length
    requires Behind(p, po, b, bo, n)
    modifies p
    ensures r == (if old(Val(p[po..po+n+1])) < m * old(Val(b[bo..bo+n])) then -1 else 1)
    ensures Val(p[po..po+n+1]) == old(Val(p[po..po+n+1])) - m * old(Val(b[bo..bo+n])) + (if r < 0 then BPow(n + 1) else 0)
    ensures forall k :: 0 <= k < p.Length && !(po <= k <= po + n) ==> p[k] == old(p[k])
  {
    hide Val, Shift, BPow, Times, Wrap;
    ghost var P: seq<Digit>, B: seq<Digit> := p[po..po+n+1], b[bo..bo+n];
    assert p[po..po+n] == P[..n];
    var part1, borrow;
    ghost var S;
    part1, borrow, S := mulSubDigits(b, bo, n, m, p, po);
    assert p[po+n] == P[n];
    assert P == P[..n] + [P[n]];
    ValBound(B);
    BorrowBound(S, part1 + borrow, Val(P[..n]), Val(B), m);
    TimesIs(m, Val(B));
    var x: int := p[po+n];
    assert x - borrow - part1 == x - (part1 + borrow);
    var y := Wrap(x - borrow - part1);
    WrapBorrow(x, part1 + borrow);
    SubLast(S, part1 + borrow, P[..n], Val(B), m, x, y);
    p[po+n] := y;
    assert p[po..po+n+1] == S + [y];
    if y > x { r := -1; } else { r := 1; }
  }

}
