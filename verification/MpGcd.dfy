/** The binary extended gcd and the modular inverse built on it. */
module MpGcd {
  import opened Digits
  import opened MpInts
  import opened MpShift
  import opened MpModular
  import NT = NumberTheory

  /** Two numbers that share neither object nor buffer. */
  ghost predicate Two(x: MpInt, y: MpInt)
    reads x, y
  {
    x != y && x.p != y.p
  }

  ghost predicate Five(u: MpInt, A: MpInt, B: MpInt, a: MpInt, b: MpInt)
    reads u, A, B, a, b
  {
    && Two(u, A) && Two(u, B) && Two(u, a) && Two(u, b) && Two(A, B) && Two(A, a) && Two(A, b)
    && Two(B, a) && Two(B, b) && Two(a, b)
  }

  /** iseven looks at the lowest digit. */
  predicate IsEven(a: MpInt)
    requires a.p.Length > 0
    reads a, a.p
  {
    a.p[0] % 2 == 0
  }

  lemma ParityWord(d: int, r: int)
    ensures (d + BASE * r) % 2 == d % 2
  {
    var z := d / 2 + 0x8000_0000 * r;
    TwiceAnd(d / 2, d % 2);
    assert d == 2 * (d / 2) + d % 2;
    assert d + BASE * r == 2 * z + d % 2;
    TwiceAnd(z, d % 2);
  }

  lemma ParityOfMinus(m: int)
    ensures (-m) % 2 == 0 <==> m % 2 == 0
  {
  }

  lemma EvenValue(a: MpInt)
    requires a.Valid() && a.Clean()
    ensures IsEven(a) <==> a.V() % 2 == 0
  {
    hide Val;
    if a.top == 0 {
      ValEmpty();
    } else {
      var D := a.p[..a.top];
      assert D == [D[0]] + D[1..];
      ValPrepend(D[0], D[1..]);
      ParityWord(D[0], Val(D[1..]));
      ParityOfMinus(a.Mag());
    }
  }

  /** mpright(x, 1, x) on an even number of either sign. */
  method Halve(x: MpInt)
    requires x.Valid() && x.Clean() && x.V() % 2 == 0
    modifies x, x.p
    ensures x.Valid() && x.Clean() && 2 * x.V() == old(x.V())
    ensures x.p == old(x.p) || fresh(x.p)
    ensures x.top > 0 ==> x.sign == old(x.sign)
  {
    hide Val;
    MagIsZero(x);
    assert Pow2(1) == 2 by { Pow2Zero(); }
    mpright(x, 1, x);
    MagIsZero(x);
  }

  // -------------------------------------------------- the arithmetic of a step

  lemma ParityOfProduct(x: int, y: int)
    ensures (x * y) % 2 == (x % 2) * (y % 2)
  {
    ParityOfParts(x / 2, x % 2, y / 2, y % 2);
  }

  lemma ParityOfParts(h: int, i: int, k: int, l: int)
    requires 0 <= i < 2 && 0 <= l < 2
    ensures ((2 * h + i) * (2 * k + l)) % 2 == i * l
  {
    var z := 2 * (h * k) + h * l + i * k;
    assert (2 * h + i) * (2 * k + l) == 2 * z + i * l;
    assert 0 <= i * l < 2;
    TwiceAnd(z, i * l);
  }

  lemma TwiceAnd(z: int, r: int)
    requires 0 <= r < 2
    ensures (2 * z + r) % 2 == r
  {
  }

  /** The combination x*a + y*b. */
  function Comb(x: int, y: int, a: int, b: int): int
  {
    x * a + y * b
  }

  lemma CombParity(x: int, y: int, a: int, b: int)
    ensures Comb(x, y, a, b) % 2 == ((x % 2) * (a % 2) + (y % 2) * (b % 2)) % 2
  {
    ParityOfProduct(x, a);
    ParityOfProduct(y, b);
  }

  lemma BitCases(i: int, j: int, k: int, l: int)
    requires 0 <= i <= 1 && 0 <= j <= 1 && 0 <= k <= 1 && 0 <= l <= 1
    requires (i * k + j * l) % 2 == 0 && (k != 0 || l != 0) && (i != 0 || j != 0)
    ensures i == l && j == k
  {
  }

  /** When x*a + y*b is even and a, b are not both even, adding b and subtracting a evens x and y. */
  lemma MakeEven(x: int, y: int, a: int, b: int)
    requires a % 2 != 0 || b % 2 != 0
    requires Comb(x, y, a, b) % 2 == 0 && (x % 2 != 0 || y % 2 != 0)
    ensures (x + b) % 2 == 0 && (y - a) % 2 == 0
  {
    hide Comb;
    CombParity(x, y, a, b);
    BitCases(x % 2, y % 2, a % 2, b % 2);
  }

  lemma MoveComb(x: int, y: int, a: int, b: int)
    ensures Comb(x + b, y - a, a, b) == Comb(x, y, a, b)
  {
    assert (x + b) * a == x * a + b * a && (y - a) * b == y * b - a * b;
  }

  lemma HalveComb(x: int, y: int, a: int, b: int)
    ensures Comb(2 * x, 2 * y, a, b) == 2 * Comb(x, y, a, b)
  {
    assert 2 * x * a == 2 * (x * a) && 2 * y * b == 2 * (y * b);
  }

  lemma SubtractComb(x: int, y: int, z: int, w: int, a: int, b: int)
    ensures Comb(x - z, y - w, a, b) == Comb(x, y, a, b) - Comb(z, w, a, b)
  {
  }

  /** Every odd common divisor of u and v divides a and b. */
  ghost predicate OddDivisors(u: int, v: int, a: int, b: int)
  {
    forall d :: d % 2 == 1 && NT.Divides(d, u) && NT.Divides(d, v) ==> NT.Divides(d, a) && NT.Divides(d, b)
  }

  lemma OddDivisorsHalve(u: int, v: int, a: int, b: int, h: int)
    requires OddDivisors(u, v, a, b) && u == 2 * h
    ensures OddDivisors(h, v, a, b)
  {
    forall d | d % 2 == 1 && NT.Divides(d, h) && NT.Divides(d, v) ensures NT.Divides(d, a) && NT.Divides(d, b) {
      NT.DividesLinear(d, h, h, 2, 0);
    }
  }

  lemma OddDivisorsSwap(u: int, v: int, a: int, b: int)
    requires OddDivisors(u, v, a, b)
    ensures OddDivisors(v, u, a, b)
  {
  }

  lemma OddDivisorsSubtract(u: int, v: int, a: int, b: int)
    requires OddDivisors(u, v, a, b)
    ensures OddDivisors(u - v, v, a, b)
  {
    forall d | d % 2 == 1 && NT.Divides(d, u - v) && NT.Divides(d, v) ensures NT.Divides(d, a) && NT.Divides(d, b) {
      NT.DividesLinear(d, u - v, v, 1, 1);
    }
  }

  // ----------------------------------------------------------- the loop steps

  /** One side of the loop: u with its coefficients A and B. */
  ghost predicate Side(u: MpInt, A: MpInt, B: MpInt, va: int, vb: int)
    reads u, u.p, A, A.p, B, B.p
  {
    && u.Valid() && u.Clean() && A.Valid() && A.Clean() && B.Valid() && B.Clean()
    && Comb(A.V(), B.V(), va, vb) == u.V()
  }

  /** The two numbers the gcd is taken of, after their common twos are gone. */
  ghost predicate Inputs(a: MpInt, b: MpInt, va: int, vb: int)
    reads a, a.p, b, b.p
  {
    a.Valid() && a.Clean() && b.Valid() && b.Clean() && a.V() == va && b.V() == vb && (va % 2 != 0 || vb % 2 != 0)
  }

  /** The coefficients' part of a halving: make both even without changing the combination, then halve. */
  method HalveCoefficients(A: MpInt, B: MpInt, a: MpInt, b: MpInt, ghost va: int, ghost vb: int)
    requires Two(A, B) && Two(A, a) && Two(A, b) && Two(B, a) && Two(B, b) && Inputs(a, b, va, vb)
    requires A.Valid() && A.Clean() && B.Valid() && B.Clean() && Comb(A.V(), B.V(), va, vb) % 2 == 0
    modifies A, A.p, B, B.p
    ensures A.p == old(A.p) || fresh(A.p)
    ensures B.p == old(B.p) || fresh(B.p)
    ensures Two(A, B) && A.Valid() && A.Clean() && B.Valid() && B.Clean()
    ensures 2 * Comb(A.V(), B.V(), va, vb) == old(Comb(A.V(), B.V(), va, vb))
  {
    hide Val, Comb, MpInt.V, MpInt.Mag;
    EvenCoefficients(A, B, a, b, va, vb);
    Halve(A);
    Halve(B);
    HalveComb(A.V(), B.V(), va, vb);
  }

  method EvenCoefficients(A: MpInt, B: MpInt, a: MpInt, b: MpInt, ghost va: int, ghost vb: int)
    requires Two(A, B) && Two(A, a) && Two(A, b) && Two(B, a) && Two(B, b) && Inputs(a, b, va, vb)
    requires A.Valid() && A.Clean() && B.Valid() && B.Clean() && Comb(A.V(), B.V(), va, vb) % 2 == 0
    modifies A, A.p, B, B.p
    ensures A.p == old(A.p) || fresh(A.p)
    ensures B.p == old(B.p) || fresh(B.p)
    ensures Two(A, B) && A.Valid() && A.Clean() && B.Valid() && B.Clean()
    ensures A.V() % 2 == 0 && B.V() % 2 == 0 && Comb(A.V(), B.V(), va, vb) == old(Comb(A.V(), B.V(), va, vb))
  {
    hide Val, Comb, MpInt.V, MpInt.Mag;
    EvenValue(A);
    EvenValue(B);
    if !IsEven(A) || !IsEven(B) {
      MakeEven(A.V(), B.V(), va, vb);
      MoveComb(A.V(), B.V(), va, vb);
      mpadd(A, b, A);
      mpsub(B, a, B);
    }
  }

  /** while(iseven(u)): the equation survives and every halving is exact. */
  method HalveSide(u: MpInt, A: MpInt, B: MpInt, a: MpInt, b: MpInt, ghost va: int, ghost vb: int, ghost w: int)
    requires Five(u, A, B, a, b) && Inputs(a, b, va, vb)
    requires Side(u, A, B, va, vb) && u.V() > 0 && OddDivisors(u.V(), w, va, vb)
    modifies u, u.p, A, A.p, B, B.p
    ensures u.p == old(u.p) || fresh(u.p)
    ensures A.p == old(A.p) || fresh(A.p)
    ensures B.p == old(B.p) || fresh(B.p)
    ensures Five(u, A, B, a, b)
    ensures Side(u, A, B, va, vb) && 0 < u.V() <= old(u.V()) && u.V() % 2 == 1 && OddDivisors(u.V(), w, va, vb)
  {
    hide Val, Comb, OddDivisors, MpInt.V, MpInt.Mag;
    EvenValue(u);
    while IsEven(u)
      invariant u.p == old(u.p) || fresh(u.p)
      invariant A.p == old(A.p) || fresh(A.p)
      invariant B.p == old(B.p) || fresh(B.p)
      invariant Five(u, A, B, a, b) && Inputs(a, b, va, vb)
      invariant Side(u, A, B, va, vb) && 0 < u.V() <= old(u.V()) && OddDivisors(u.V(), w, va, vb)
      invariant IsEven(u) <==> u.V() % 2 == 0
      decreases u.V()
    {
      ghost var was := u.V();
      Halve(u);
      HalveCoefficients(A, B, a, b, va, vb);
      OddDivisorsHalve(was, w, va, vb, u.V());
      EvenValue(u);
    }
  }

  /** u := u - v with its coefficients. */
  method SubtractSide(u: MpInt, A: MpInt, B: MpInt, v: MpInt, C: MpInt, D: MpInt, ghost va: int, ghost vb: int)
    requires Two(u, A) && Two(u, B) && Two(u, v) && Two(u, C) && Two(u, D) && Two(A, B)
    requires Two(A, v) && Two(A, C) && Two(A, D) && Two(B, v) && Two(B, C) && Two(B, D)
    requires Side(u, A, B, va, vb) && Side(v, C, D, va, vb)
    modifies u, u.p, A, A.p, B, B.p
    ensures u.p == old(u.p) || fresh(u.p)
    ensures A.p == old(A.p) || fresh(A.p)
    ensures B.p == old(B.p) || fresh(B.p)
    ensures Two(u, A) && Two(u, B) && Two(A, B)
    ensures Side(u, A, B, va, vb) && u.V() == old(u.V()) - v.V()
  {
    hide Val, Comb, MpInt.V, MpInt.Mag, MpInt.Clean;
    ghost var x, y := Comb(A.V(), B.V(), va, vb), Comb(C.V(), D.V(), va, vb);
    mpsub(u, v, u);
    SubtractCoefficients(A, B, C, D, va, vb);
  }

  method SubtractCoefficients(A: MpInt, B: MpInt, C: MpInt, D: MpInt, ghost va: int, ghost vb: int)
    requires Two(A, B) && Two(A, C) && Two(A, D) && Two(B, C) && Two(B, D)
    requires A.Valid() && A.Clean() && B.Valid() && B.Clean() && C.Valid() && C.Clean() && D.Valid() && D.Clean()
    modifies A, A.p, B, B.p
    ensures A.p == old(A.p) || fresh(A.p)
    ensures B.p == old(B.p) || fresh(B.p)
    ensures Two(A, B) && A.Valid() && A.Clean() && B.Valid() && B.Clean()
    ensures Comb(A.V(), B.V(), va, vb) == old(Comb(A.V(), B.V(), va, vb)) - Comb(C.V(), D.V(), va, vb)
  {
    hide Val, Comb, MpInt.V, MpInt.Mag, MpInt.Clean;
    SubtractComb(A.V(), B.V(), C.V(), D.V(), va, vb);
    mpsub(A, C, A);
    mpsub(B, D, B);
  }

  /** All eight numbers of the loop are apart. */
  ghost predicate Eight(u: MpInt, A: MpInt, B: MpInt, v: MpInt, C: MpInt, D: MpInt, a: MpInt, b: MpInt)
    reads u, A, B, v, C, D, a, b
  {
    && Five(u, A, B, a, b) && Five(v, C, D, a, b)
    && Two(u, v) && Two(u, C) && Two(u, D)
    && Two(A, v) && Two(A, C) && Two(A, D)
    && Two(B, v) && Two(B, C) && Two(B, D)
  }

  /** The subtraction that ends a turn: the smaller side from the larger. */
  method SubtractSmaller(u: MpInt, A: MpInt, B: MpInt, v: MpInt, C: MpInt, D: MpInt, a: MpInt, b: MpInt, ghost va: int, ghost vb: int)
    requires Eight(u, A, B, v, C, D, a, b)
    requires Side(u, A, B, va, vb) && Side(v, C, D, va, vb) && u.V() > 0 && v.V() > 0
    requires OddDivisors(u.V(), v.V(), va, vb)
    modifies u, u.p, A, A.p, B, B.p, v, v.p, C, C.p, D, D.p
    ensures (u.p == old(u.p) || fresh(u.p)) && (A.p == old(A.p) || fresh(A.p)) && (B.p == old(B.p) || fresh(B.p))
    ensures (v.p == old(v.p) || fresh(v.p)) && (C.p == old(C.p) || fresh(C.p)) && (D.p == old(D.p) || fresh(D.p))
    ensures Eight(u, A, B, v, C, D, a, b)
    ensures Side(u, A, B, va, vb) && Side(v, C, D, va, vb) && OddDivisors(u.V(), v.V(), va, vb)
    ensures u.V() >= 0 && v.V() > 0 && u.V() + v.V() < old(u.V() + v.V())
    ensures u.V() == 0 ==> v.V() == old(v.V())
  {
    hide Val, Comb, OddDivisors, MpInt.V, MpInt.Mag, MpInt.Clean;
    var c := mpcmp(u, v);
    if c >= 0 {
      OddDivisorsSubtract(u.V(), v.V(), va, vb);
      SubtractSide(u, A, B, v, C, D, va, vb);
    } else {
      OddDivisorsSwap(u.V(), v.V(), va, vb);
      OddDivisorsSubtract(v.V(), u.V(), va, vb);
      SubtractSide(v, C, D, u, A, B, va, vb);
      OddDivisorsSwap(v.V(), u.V(), va, vb);
    }
  }

  /** Both halving loops of a turn. */
  method HalveBoth(u: MpInt, A: MpInt, B: MpInt, v: MpInt, C: MpInt, D: MpInt, a: MpInt, b: MpInt, ghost va: int, ghost vb: int)
    requires Eight(u, A, B, v, C, D, a, b) && Inputs(a, b, va, vb)
    requires Side(u, A, B, va, vb) && Side(v, C, D, va, vb) && u.V() > 0 && v.V() > 0
    requires OddDivisors(u.V(), v.V(), va, vb)
    modifies u, u.p, A, A.p, B, B.p, v, v.p, C, C.p, D, D.p
    ensures (u.p == old(u.p) || fresh(u.p)) && (A.p == old(A.p) || fresh(A.p)) && (B.p == old(B.p) || fresh(B.p))
    ensures (v.p == old(v.p) || fresh(v.p)) && (C.p == old(C.p) || fresh(C.p)) && (D.p == old(D.p) || fresh(D.p))
    ensures Eight(u, A, B, v, C, D, a, b)
    ensures Side(u, A, B, va, vb) && Side(v, C, D, va, vb) && OddDivisors(u.V(), v.V(), va, vb)
    ensures 0 < u.V() <= old(u.V()) && 0 < v.V() <= old(v.V()) && v.V() % 2 == 1
  {
    hide Val, Comb, OddDivisors, MpInt.V, MpInt.Mag, MpInt.Clean;
    HalveSide(u, A, B, a, b, va, vb, v.V());
    OddDivisorsSwap(u.V(), v.V(), va, vb);
    HalveSide(v, C, D, a, b, va, vb, u.V());
    OddDivisorsSwap(v.V(), u.V(), va, vb);
  }

  /** One turn of the loop. */
  method GcdTurn(u: MpInt, A: MpInt, B: MpInt, v: MpInt, C: MpInt, D: MpInt, a: MpInt, b: MpInt, ghost va: int, ghost vb: int)
    requires Eight(u, A, B, v, C, D, a, b) && Inputs(a, b, va, vb)
    requires Side(u, A, B, va, vb) && Side(v, C, D, va, vb) && u.V() > 0 && v.V() > 0
    requires OddDivisors(u.V(), v.V(), va, vb)
    modifies u, u.p, A, A.p, B, B.p, v, v.p, C, C.p, D, D.p
    ensures (u.p == old(u.p) || fresh(u.p)) && (A.p == old(A.p) || fresh(A.p)) && (B.p == old(B.p) || fresh(B.p))
    ensures (v.p == old(v.p) || fresh(v.p)) && (C.p == old(C.p) || fresh(C.p)) && (D.p == old(D.p) || fresh(D.p))
    ensures Eight(u, A, B, v, C, D, a, b)
    ensures Side(u, A, B, va, vb) && Side(v, C, D, va, vb) && OddDivisors(u.V(), v.V(), va, vb)
    ensures u.V() >= 0 && v.V() > 0 && u.V() + v.V() < old(u.V() + v.V())
    ensures u.V() == 0 ==> v.V() % 2 == 1
  {
    hide Val, Comb, OddDivisors, MpInt.V, MpInt.Mag, MpInt.Clean;
    HalveBoth(u, A, B, v, C, D, a, b, va, vb);
    SubtractSmaller(u, A, B, v, C, D, a, b, va, vb);
  }

  /** The loop of the extended gcd: v ends as a combination of a and b that every odd divisor of both
      sides shares, and it is odd itself. */
  method GcdLoop(u: MpInt, A: MpInt, B: MpInt, v: MpInt, C: MpInt, D: MpInt, a: MpInt, b: MpInt, ghost va: int, ghost vb: int)
    requires Eight(u, A, B, v, C, D, a, b) && Inputs(a, b, va, vb)
    requires Side(u, A, B, va, vb) && Side(v, C, D, va, vb) && u.V() > 0 && v.V() > 0
    requires OddDivisors(u.V(), v.V(), va, vb)
    modifies u, u.p, A, A.p, B, B.p, v, v.p, C, C.p, D, D.p
    ensures (v.p == old(v.p) || fresh(v.p)) && (C.p == old(C.p) || fresh(C.p)) && (D.p == old(D.p) || fresh(D.p))
    ensures Five(v, C, D, a, b) && Side(v, C, D, va, vb) && v.V() > 0 && v.V() % 2 == 1
    ensures OddDivisors(0, v.V(), va, vb)
  {
    hide Val, Comb, OddDivisors, MpInt.V, MpInt.Mag, MpInt.Clean;
    MagIsZero(u);
    while u.top > 0
      invariant (u.p == old(u.p) || fresh(u.p)) && (A.p == old(A.p) || fresh(A.p)) && (B.p == old(B.p) || fresh(B.p))
      invariant (v.p == old(v.p) || fresh(v.p)) && (C.p == old(C.p) || fresh(C.p)) && (D.p == old(D.p) || fresh(D.p))
      invariant Eight(u, A, B, v, C, D, a, b) && Inputs(a, b, va, vb)
      invariant Side(u, A, B, va, vb) && Side(v, C, D, va, vb) && u.V() >= 0 && v.V() > 0
      invariant OddDivisors(u.V(), v.V(), va, vb)
      invariant u.V() == 0 ==> v.V() % 2 == 1
      invariant u.V() > 0 <==> u.top > 0
      decreases u.V() + v.V()
    {
      GcdTurn(u, A, B, v, C, D, a, b, va, vb);
      MagIsZero(u);
    }
  }

  // ------------------------------------------------------------ mpextendedgcd

  lemma ScaleMultiple(x: int, v: int, k: int, p: int)
    requires x == v * k
    ensures x * p == v * p * k
  {
    assert v * k * p == v * p * k;
  }

  lemma ScaleComb(x: int, y: int, p: int, c: int, d: int)
    ensures x * p * c + y * p * d == Comb(c, d, x, y) * p
  {
    assert (c * x + d * y) * p == x * p * c + y * p * d;
  }

  /** The common factors of two taken out first: x and y end as the inputs over 2^g. */
  lemma ScaledGcd(a: int, b: int, x: int, y: int, g: nat, v: int, c: int, d: int)
    requires a == x * Pow2(g) && b == y * Pow2(g)
    requires v > 0 && v % 2 == 1 && Comb(c, d, x, y) == v && OddDivisors(0, v, x, y)
    ensures a * c + b * d == v * Pow2(g) && NT.IsGcd(v * Pow2(g), a, b) && v * Pow2(g) > 0
  {
    hide Pow2, Comb;
    var p := Pow2(g);
    NT.DividesIntro(v, 0, 0);
    NT.DividesIntro(v, v, 1);
    var k := NT.DividesElim(v, x);
    var l := NT.DividesElim(v, y);
    ScaleMultiple(x, v, k, p);
    ScaleMultiple(y, v, l, p);
    NT.DividesIntro(v * p, a, k);
    NT.DividesIntro(v * p, b, l);
    ScaleComb(x, y, p, c, d);
    NT.MulMono(1, v, p);
    NT.GcdFromCombination(v * p, a, b, c, d);
  }

  /** while(iseven(a) && iseven(b)) on positive numbers; ends because they get smaller. */
  method DropTwos(a: MpInt, b: MpInt) returns (g: nat)
    requires a.Valid() && a.Clean() && b.Valid() && b.Clean() && Two(a, b) && a.V() > 0 && b.V() > 0
    modifies a, a.p, b, b.p
    ensures a.p == old(a.p) || fresh(a.p)
    ensures b.p == old(b.p) || fresh(b.p)
    ensures Two(a, b) && a.Valid() && b.Valid() && Inputs(a, b, a.V(), b.V()) && a.V() > 0 && b.V() > 0
    ensures old(a.V()) == a.V() * Pow2(g) && old(b.V()) == b.V() * Pow2(g)
  {
    hide Val, MpInt.V, MpInt.Mag, Pow2;
    g := 0;
    Pow2Zero();
    EvenValue(a); EvenValue(b);
    while IsEven(a) && IsEven(b)
      invariant a.p == old(a.p) || fresh(a.p)
      invariant b.p == old(b.p) || fresh(b.p)
      invariant Two(a, b) && a.Valid() && a.Clean() && b.Valid() && b.Clean() && a.V() > 0 && b.V() > 0
      invariant old(a.V()) == a.V() * Pow2(g) && old(b.V()) == b.V() * Pow2(g)
      invariant (IsEven(a) <==> a.V() % 2 == 0) && (IsEven(b) <==> b.V() % 2 == 0)
      decreases a.V()
    {
      ghost var x, y := a.V(), b.V();
      Halve(a);
      Halve(b);
      g := g + 1;
      OneMoreTwo(x, a.V(), g);
      OneMoreTwo(y, b.V(), g);
      EvenValue(a); EvenValue(b);
    }
  }

  lemma OneMoreTwo(x: int, h: int, g: nat)
    requires x == 2 * h && g >= 1
    ensures x * Pow2(g - 1) == h * Pow2(g)
  {
    var p := Pow2(g - 1);
    assert Pow2(g) == 2 * p;
    assert 2 * h * p == h * (2 * p);
  }

  lemma CombUnits(a: int, b: int)
    ensures Comb(1, 0, a, b) == a && Comb(0, 1, a, b) == b
  {
  }

  /** The gcd of two positive numbers with its coefficients. */
  method PositiveGcd(a0: MpInt, b0: MpInt, v: MpInt, x: MpInt, y: MpInt)
    requires a0.Valid() && b0.Valid() && a0.V() > 0 && b0.V() > 0
    requires v.Shape() && x.Shape() && y.Shape() && Two(v, x) && Two(v, y) && Two(x, y)
    requires Own(a0, v) && Own(a0, x) && Own(a0, y) && Own(b0, v) && Own(b0, x) && Own(b0, y)
    modifies v, v.p, x, x.p, y, y.p
    ensures v.Valid() && x.Valid() && y.Valid()
    ensures (v.p == old(v.p) || fresh(v.p)) && (x.p == old(x.p) || fresh(x.p)) && (y.p == old(y.p) || fresh(y.p))
    ensures Two(v, x) && Two(v, y) && Two(x, y)
    ensures NT.IsGcd(v.V(), old(a0.V()), old(b0.V())) && v.V() > 0
    ensures old(a0.V()) * x.V() + old(b0.V()) * y.V() == v.V()
    ensures x.top == 0 ==> x.sign == 1
  {
    hide Val, Comb, OddDivisors, NT.IsGcd, MpInt.Mag, Pow2;
    ghost var va, vb := a0.V(), b0.V();
    var g, C, D := GcdCore(a0, b0, v);
    mpassign(C, x);
    mpassign(D, y);
    mpleft(v, g, v);
  }

  /** Everything up to the last three lines: v, C and D before the twos are put back. */
  method GcdCore(a0: MpInt, b0: MpInt, v: MpInt) returns (g: nat, C: MpInt, D: MpInt)
    requires a0.Valid() && b0.Valid() && a0.V() > 0 && b0.V() > 0 && v.Shape() && Own(a0, v) && Own(b0, v)
    modifies v, v.p
    ensures fresh(C) && fresh(C.p) && fresh(D) && fresh(D.p) && C.Valid() && C.Clean() && D.Valid() && Two(C, D) && Two(v, C) && Two(v, D)
    ensures v.Valid() && (v.p == old(v.p) || fresh(v.p)) && v.V() > 0
    ensures NT.IsGcd(v.V() * Pow2(g), old(a0.V()), old(b0.V())) && v.V() * Pow2(g) > 0
    ensures old(a0.V()) * C.V() + old(b0.V()) * D.V() == v.V() * Pow2(g)
  {
    hide Val, Comb, OddDivisors, NT.IsGcd, MpInt.V, MpInt.Mag, Pow2;
    ghost var va0, vb0 := a0.V(), b0.V();
    MagIsZero(a0); MagIsZero(b0);
    var a := mpcopy(a0);
    var b := mpcopy(b0);
    g := DropTwos(a, b);
    ghost var va, vb := a.V(), b.V();
    C, D := RunLoop(a, b, v, va, vb);
    ScaledGcd(va0, vb0, va, vb, g, v.V(), C.V(), D.V());
  }

  method Row(d: Digit, e: Digit) returns (A: MpInt, B: MpInt)
    ensures fresh(A) && fresh(A.p) && fresh(B) && fresh(B.p) && Two(A, B)
    ensures A.Valid() && A.Clean() && A.V() == d && B.Valid() && B.Clean() && B.V() == e
  {
    A := new MpInt.OfDigit(d);
    B := new MpInt.OfDigit(e);
  }

  /** Before the loop: u = a, v = b with unit coefficients. */
  method SetUp(a: MpInt, b: MpInt, v: MpInt, ghost va: int, ghost vb: int) returns (u: MpInt, A: MpInt, B: MpInt, C: MpInt, D: MpInt)
    requires Two(a, b) && Two(a, v) && Two(b, v) && v.Shape() && Inputs(a, b, va, vb) && va > 0 && vb > 0
    modifies v, v.p
    ensures fresh(u) && fresh(u.p) && fresh(A) && fresh(A.p) && fresh(B) && fresh(B.p)
    ensures fresh(C) && fresh(C.p) && fresh(D) && fresh(D.p) && (v.p == old(v.p) || fresh(v.p))
    ensures Eight(u, A, B, v, C, D, a, b)
    ensures Side(u, A, B, va, vb) && Side(v, C, D, va, vb) && u.V() == va && v.V() == vb
  {
    hide Val, Comb, MpInt.V, MpInt.Mag, MpInt.Valid, MpInt.Clean;
    MagIsZero(b);
    C, D := RightRow(b, v, va, vb);
    u, A, B := LeftRow(a, va, vb);
  }

  method LeftRow(a: MpInt, ghost va: int, ghost vb: int) returns (u: MpInt, A: MpInt, B: MpInt)
    requires a.Valid() && a.Clean() && a.V() == va
    ensures fresh(u) && fresh(u.p) && fresh(A) && fresh(A.p) && fresh(B) && fresh(B.p)
    ensures Two(u, A) && Two(u, B) && Two(A, B)
    ensures Side(u, A, B, va, vb) && u.V() == va
  {
    hide Val, Comb;
    CombUnits(va, vb);
    u := mpcopy(a);
    A, B := Row(1, 0);
  }

  method RightRow(b: MpInt, v: MpInt, ghost va: int, ghost vb: int) returns (C: MpInt, D: MpInt)
    requires b.Valid() && b.top > 0 && b.V() == vb && Two(b, v) && v.Shape()
    modifies v, v.p
    ensures fresh(C) && fresh(C.p) && fresh(D) && fresh(D.p) && (v.p == old(v.p) || fresh(v.p))
    ensures Two(v, C) && Two(v, D) && Two(C, D)
    ensures Side(v, C, D, va, vb) && v.V() == vb
  {
    hide Val, Comb;
    CombUnits(va, vb);
    C, D := Row(0, 1);
    mpassign(b, v);
  }

  /** The loop from its start. */
  method RunLoop(a: MpInt, b: MpInt, v: MpInt, ghost va: int, ghost vb: int) returns (C: MpInt, D: MpInt)
    requires Two(a, b) && Two(a, v) && Two(b, v) && v.Shape() && Inputs(a, b, va, vb) && va > 0 && vb > 0
    modifies v, v.p
    ensures fresh(C) && fresh(C.p) && fresh(D) && fresh(D.p) && Two(C, D) && Two(v, C) && Two(v, D)
    ensures (v.p == old(v.p) || fresh(v.p))
    ensures Side(v, C, D, va, vb) && v.V() > 0 && v.V() % 2 == 1 && OddDivisors(0, v.V(), va, vb)
  {
    hide Val, Comb, OddDivisors, MpInt.V, MpInt.Mag, MpInt.Valid, MpInt.Clean;
    var u, A, B;
    u, A, B, C, D := SetUp(a, b, v, va, vb);
    OddDivisorsStart(va, vb);
    GcdLoop(u, A, B, v, C, D, a, b, va, vb);
  }

  lemma OddDivisorsStart(a: int, b: int)
    ensures OddDivisors(a, b, a, b)
  {
  }

  /** For inputs that are not negative, v is their gcd and a*x + b*y = v; a minus sign, even on a zero,
      gives three zeros. */
  method mpextendedgcd(a: MpInt, b: MpInt, v: MpInt, x: MpInt, y: MpInt)
    requires a.Valid() && b.Valid()
    requires v.Shape() && x.Shape() && y.Shape() && Two(v, x) && Two(v, y) && Two(x, y)
    requires Own(a, v) && Own(a, x) && Own(a, y) && Own(b, v) && Own(b, x) && Own(b, y)
    modifies v, v.p, x, x.p, y, y.p
    ensures v.Valid() && x.Valid() && y.Valid()
    ensures (v.p == old(v.p) || fresh(v.p)) && (x.p == old(x.p) || fresh(x.p)) && (y.p == old(y.p) || fresh(y.p))
    ensures Two(v, x) && Two(v, y) && Two(x, y)
    ensures old(a.sign < 0 || b.sign < 0) ==> v.V() == x.V() == y.V() == 0
    ensures old(a.sign > 0 && b.sign > 0) ==>
      NT.IsGcd(v.V(), old(a.V()), old(b.V())) && old(a.V()) * x.V() + old(b.V()) * y.V() == v.V()
    ensures x.top == 0 ==> x.sign == 1
  {
    hide Val, NT.IsGcd, MpInt.Mag, MpInt.V;
    SignOfValue(a); SignOfValue(b);
    ghost var va, vb := a.V(), b.V();
    if a.sign < 0 || b.sign < 0 {
      SetThree(0, v, 0, x, 0, y);
    } else if a.top == 0 {
      TrivialGcd(vb);
      mpassign(b, v);
      SetOne(1, y);
      SetOne(0, x);
    } else if b.top == 0 {
      TrivialGcd(va);
      mpassign(a, v);
      SetOne(1, x);
      SetOne(0, y);
    } else {
      PositiveGcd(a, b, v, x, y);
    }
  }

  lemma SignOfValue(a: MpInt)
    requires a.Valid()
    ensures a.top == 0 ==> a.V() == 0
    ensures a.top > 0 ==> if a.sign > 0 then a.V() > 0 else a.V() < 0
  {
    MagIsZero(a);
  }

  lemma TrivialGcd(b: int)
    requires b >= 0
    ensures NT.IsGcd(b, 0, b) && NT.IsGcd(b, b, 0)
  {
    NT.DividesIntro(b, 0, 0);
    NT.DividesIntro(b, b, 1);
    NT.GcdFromCombination(b, 0, b, 0, 1);
    NT.GcdFromCombination(b, b, 0, 1, 0);
  }

  /** mpassign from one of the small constants. */
  method SetOne(d: Digit, x: MpInt)
    requires x.Shape()
    modifies x, x.p
    ensures x.Valid() && x.V() == d && x.sign == 1 && (x.p == old(x.p) || fresh(x.p))
  {
    hide Val;
    var c := new MpInt.OfDigit(d);
    mpassign(c, x);
  }

  method SetThree(d: Digit, x: MpInt, e: Digit, y: MpInt, f: Digit, z: MpInt)
    requires x.Shape() && y.Shape() && z.Shape() && Two(x, y) && Two(x, z) && Two(y, z)
    modifies x, x.p, y, y.p, z, z.p
    ensures x.Valid() && y.Valid() && z.Valid() && x.V() == d && y.V() == e && z.V() == f && x.sign == y.sign == z.sign == 1
    ensures (x.p == old(x.p) || fresh(x.p)) && (y.p == old(y.p) || fresh(y.p)) && (z.p == old(z.p) || fresh(z.p))
    ensures Two(x, y) && Two(x, z) && Two(y, z)
  {
    SetOne(d, x);
    SetOne(e, y);
    SetOne(f, z);
  }

  // ----------------------------------------------------------------- mpinvert

  lemma InverseFromGcd(b: int, m: int, x: int, y: int)
    requires m > 0 && b * x + m * y == 1
    ensures NT.Cong(b * (x % m), 1, m) && 0 <= x % m < m && (m > 1 ==> x % m > 0)
  {
    NT.CongMod(x, m);
    NT.CongIntro(b * x, 1, m, -y);
    NT.CongMul(b, b, x % m, x, m);
    if m > 1 && x % m == 0 {
      NT.CongIntro(1, 0, m, 0);
    }
  }

  lemma NotCoprime(g: int, b: int, m: int)
    requires NT.IsGcd(g, b, m)
    ensures NT.IsGcd(1, b, m) <==> g == 1
  {
    if NT.IsGcd(1, b, m) { NT.GcdUnique(g, 1, b, m); }
  }

  /** The inverse of b modulo m in [0, m); where the C code aborts the result says so. */
  method mpinvert(b: MpInt, m: MpInt, res: MpInt) returns (ok: bool)
    requires b.Valid() && m.Valid() && m.V() > 0
    requires res.Shape() && Own(b, res) && res != m && res.p != m.p
    modifies res, res.p
    ensures res.Valid() && (res.p == old(res.p) || fresh(res.p))
    ensures ok <==> old(b.sign) > 0 && NT.IsGcd(1, old(b.V()), m.V())
    ensures ok ==> 0 <= res.V() < m.V() && NT.Cong(old(b.V()) * res.V(), 1, m.V())
    ensures ok && m.V() > 1 ==> res.V() > 0
  {
    hide Val, MpInt.Mag, MpInt.V, NT.IsGcd, NT.Cong;
    ghost var vb, vm, sb := b.V(), m.V(), b.sign;
    SignOfValue(m);
    var dc1 := new MpInt(0);
    var dc2 := new MpInt(0);
    mpextendedgcd(b, m, dc1, res, dc2);
    var one := new MpInt.OfDigit(1);
    var c := mpcmp(dc1, one);
    ok := c == 0;
    if sb > 0 { NotCoprime(dc1.V(), vb, vm); }
    if ok {
      InverseFromGcd(vb, vm, res.V(), dc2.V());
      ModInPlace(res, m);
    }
  }
}
