/** The arithmetic of IDEA: multiplication modulo 65537 with 0 for 65536, and its inverses (libsec/idea.c). */
module Idea {
  import opened CTypes
  import opened NumberTheory

  const MODA: int := 0x1_0000
  const P: int := 0x1_0001
  const KEYLEN: nat := 52

  // ------------------------------------------------------ the prime 65537

  /** n as a power of two times an odd number. */
  lemma {:induction false} OddPart(n: nat) returns (j: nat, m: nat)
    requires n > 0
    ensures n == Pow(2, j) * m && m % 2 == 1
  {
    if n % 2 == 1 {
      return 0, n;
    }
    var i;
    i, m := OddPart(n / 2);
    j := i + 1;
    assert 2 * (Pow(2, i) * m) == Pow(2, j) * m;
  }

  lemma {:induction false} PowMinusOne(m: nat)
    requires m % 2 == 1
    ensures Pow(-1, m) == -1
  {
    if m > 1 {
      PowMinusOne(m - 2);
      assert Pow(-1, m) == -1 * (-1 * Pow(-1, m - 2));
    }
  }

  lemma {:induction false} PrimeFactor(n: nat) returns (q: nat)
    requires n > 1
    ensures Prime(q) && Divides(q, n) && q <= n
  {
    if Prime(n) {
      q := n;
      DividesIntro(n, n, 1);
    } else {
      var d: nat :| 1 < d < n && Divides(d, n);
      q := PrimeFactor(d);
      DividesTrans(q, d, n);
    }
  }

  /** 2^16 is -1 modulo any divisor of 65537. */
  lemma TwoToSixteen(q: nat)
    requires q > 0 && Divides(q, P)
    ensures Cong(Pow(2, 16), -1, q)
  {
    assert Pow(2, 8) == 256;
    PowAdd(2, 8, 8);
    var k := DividesElim(q, P);
    CongIntro(Pow(2, 16), -1, q, k);
  }

  /** If q - 1 were not divisible by 32, then 2^(16m) would be both 1 and -1 for the odd part m of it. */
  lemma PrimeDivisorOf(q: nat)
    requires Prime(q) && Divides(q, P)
    ensures (q - 1) % 32 == 0
  {
    assert q > 1;
    hide Pow, Prime;
    var j, m := OddPart(q - 1);
    if j < 5 {
      assert !Divides(q, 2) by { NotTwo(q); }
      Fermat(2, q);
      TwoToSixteen(q);
      var e: nat := RaisedTo16(j);
      assert (q - 1) * e == Pow(2, j) * e * m by { Swap(Pow(2, j), m, e); }
      PowMul(2, q - 1, e);
      PowCong(Pow(2, q - 1), 1, e, q);
      PowOne(e);
      PowMul(2, 16, m);
      PowCong(Pow(2, 16), -1, m, q);
      PowMinusOne(m);
      CongDivides(1, -1, q);
    } else {
      ThirtyTwo(j, m);
    }
  }

  lemma NotTwo(q: nat)
    requires Prime(q) && Divides(q, P)
    ensures !Divides(q, 2)
  {
    if Divides(q, 2) { DividesBound(q, 2); }
  }

  lemma RaisedTo16(j: nat) returns (e: nat)
    requires j < 5
    ensures Pow(2, j) * e == 16
  {
    e := if j == 0 then 16 else if j == 1 then 8 else if j == 2 then 4 else if j == 3 then 2 else 1;
    assert Pow(2, 4) == 16 && Pow(2, 2) == 4;
  }

  lemma Swap(x: int, y: int, z: int)
    ensures x * y * z == x * z * y
  {
    assert x * y * z == x * (y * z);
    assert x * z * y == x * (z * y);
  }

  lemma ThirtyTwo(j: nat, m: nat)
    requires j >= 5
    ensures (Pow(2, j) * m) % 32 == 0
  {
    PowAdd(2, 5, j - 5);
    assert Pow(2, 5) == 32;
    var k := Pow(2, j - 5) * m;
    assert Pow(2, j) * m == 32 * k;
  }

  lemma NoSmallPrime(q: nat)
    requires Prime(q) && q < 257
    ensures !Divides(q, P)
  {
    if Divides(q, P) {
      PrimeDivisorOf(q);
      OneOfSeven(q);
    }
  }

  lemma OneOfSeven(q: nat)
    requires 1 < q < 257 && (q - 1) % 32 == 0
    ensures P % q != 0
  {
    assert q == 33 || q == 65 || q == 97 || q == 129 || q == 161 || q == 193 || q == 225;
  }

  /** Nothing below 257 but 1 divides 65537. */
  lemma SmallDivisors(d: nat)
    requires 2 <= d < 257
    ensures !Divides(d, P)
  {
    if Divides(d, P) {
      var q := PrimeFactor(d);
      DividesTrans(q, d, P);
      NoSmallPrime(q);
    }
  }

  lemma PIsPrime()
    ensures Prime(P)
  {
    forall d | 1 < d < P ensures !Divides(d, P) {
      if Divides(d, P) {
        DivMod(P, d);
        var q := P / d;
        if d >= 257 {
          assert q < 257 by { if q >= 257 { MulMono(257, q, d); MulMono(257, d, 257); } }
          assert q > 1;
          assert P == q * d + 0;
          DividesIntro(q, P, d);
          SmallDivisors(q);
        } else {
          SmallDivisors(d);
        }
      }
    }
  }

  // ------------------------------------------------- low-high multiplication

  /** The residue a word stands for: 0 stands for 65536. */
  function V(x: Word): int
  {
    if x == 0 then MODA else x
  }

  /** Truncation to a ushort. */
  function Ushort(x: int): Word
  {
    x % MODA
  }

  /** The product of residues, as a word. */
  function mod(x: Word, y: Word): Word
  {
    if x == 0 then Ushort(1 - y)
    else if y == 0 then Ushort(1 - x)
    else
      var z := x * y;
      var q, r := z / MODA, z % MODA;
      Ushort(r - q + (if r < q then 1 else 0))
  }

  /** Low and high halves of a product of words are never equal. */
  lemma HalvesDiffer(x: Word, y: Word)
    requires x != 0 && y != 0
    ensures x * y % MODA != x * y / MODA
  {
    var z := x * y;
    if z % MODA == z / MODA {
      DivMod(z, MODA);
      DividesIntro(P, z, z / MODA);
      PIsPrime();
      PrimeDividesProduct(P, x, y);
      if Divides(P, x) { DividesBound(P, x); } else { DividesBound(P, y); }
    }
  }

  lemma UshortIs(x: int)
    ensures 0 <= x < MODA ==> Ushort(x) == x
    ensures -MODA <= x < 0 ==> Ushort(x) == x + MODA
    ensures x == MODA ==> Ushort(x) == 0
  {
  }

  /** mod multiplies residues modulo 65537. */
  lemma ModIsProduct(x: Word, y: Word)
    ensures Cong(V(mod(x, y)), V(x) * V(y), P)
  {
    if x == 0 || y == 0 {
      var w := if x == 0 then y else x;
      UshortIs(1 - w);
      assert V(Ushort(1 - w)) == P - V(w) by { if w == 0 { } else if w == 1 { } else { } }
      var other := V(w);
      assert P - other == MODA * other + P * (1 - other);
      CongIntro(P - other, MODA * other, P, 1 - other);
      assert V(x) * V(y) == MODA * other;
    } else {
      var z := x * y;
      var q, r := z / MODA, z % MODA;
      DivMod(z, MODA);
      HalvesDiffer(x, y);
      WordProduct(x, y);
      var d := r - q + (if r < q then 1 else 0);
      UshortIs(d);
      if r < q {
        assert V(mod(x, y)) == r - q + P;
        CongIntro(r - q + P, z, P, 1 - q);
      } else {
        assert V(mod(x, y)) == r - q;
        CongIntro(r - q, z, P, -q);
      }
    }
  }

  lemma WordProduct(x: Word, y: Word)
    ensures 0 <= x * y / MODA < MODA && 0 <= x * y % MODA < MODA
  {
    MulMono(x, MODA - 1, y);
    MulMono(y, MODA - 1, MODA - 1);
    MulMono(0, x, y);
    DivMod(x * y, MODA);
  }

  /** A word is determined by its residue modulo 65537. */
  lemma ResidueOf(x: Word, y: Word)
    requires Cong(V(x), V(y), P)
    ensures x == y
  {
    CongMod(V(x), P);
    CongMod(V(y), P);
  }

  // -------------------------------------------------- inverses by Euclid

  /** The other factor of 1 modulo 65537. */
  predicate Inverse(x: Word, y: Word)
  {
    Cong(V(x) * V(y), 1, P)
  }

  /** Euclid's algorithm on 65537 and x; 0 and 1 are their own inverses. */
  method inv(x: Word) returns (y: Word)
    ensures Inverse(x, y)
  {
    if x <= 1 {
      OwnInverse(x);
      return x;
    }
    var r0: int, r1: int, v0: int, v1: int := P, x, 0, 1;
    hide Euclid, Cong;
    Start(x);
    while r1 != 0
      invariant 0 <= r1 < r0 <= P && Euclid(x, r0, r1, v0, v1)
      decreases r1
    {
      var q := r0 / r1;
      EuclidStep(x, r0, r1, v0, v1);
      var r2 := r0 - q * r1;
      var v2 := v0 - q * v1;
      r0, r1, v0, v1 := r1, r2, v1, v2;
    }
    EuclidEnd(x, r0, v0, v1);
    if v0 < 0 {
      v0 := v0 + P;
    }
    y := v0 % MODA;
  }

  lemma OwnInverse(x: Word)
    requires x <= 1
    ensures Inverse(x, x)
  {
    if x == 0 {
      CongIntro(MODA * MODA, 1, P, MODA - 1);
    }
  }

  /** v0 and v1 times x are r0 and r1; they alternate in sign and stay small. */
  ghost predicate Euclid(x: int, r0: int, r1: int, v0: int, v1: int)
  {
    && Cong(v0 * x, r0, P) && Cong(v1 * x, r1, P)
    && -P < v0 < P && (r1 != 0 ==> -P < v1 < P)
    && ((v0 <= 0 < v1 && r0 * v1 - r1 * v0 == P) || (v1 < 0 <= v0 && r1 * v0 - r0 * v1 == P))
    && (forall d :: Divides(d, r0) && Divides(d, r1) ==> Divides(d, P) && Divides(d, x))
  }

  lemma Start(x: Word)
    requires x > 1
    ensures Euclid(x, P, x, 0, 1)
  {
    CongIntro(0, P, P, -1);
    assert 0 * x == 0 && 1 * x == x;
  }

  lemma EuclidStep(x: int, r0: int, r1: int, v0: int, v1: int)
    requires 0 < r1 < r0 <= P && Euclid(x, r0, r1, v0, v1)
    ensures var q := r0 / r1; 0 <= r0 - q * r1 < r1 && Euclid(x, r1, r0 - q * r1, v1, v0 - q * v1)
  {
    var q := r0 / r1;
    var r2, v2 := r0 - q * r1, v0 - q * v1;
    DivMod(r0, r1);
    assert q * r1 == r1 * q;
    assert q >= 1;
    EuclidRow(x, r0, r1, v0, v1, q);
    forall d | Divides(d, r1) && Divides(d, r2) ensures Divides(d, P) && Divides(d, x) {
      DividesLinear(d, r1, r2, q, 1);
      assert q * r1 + 1 * r2 == r0;
    }
    SignStep(r0, r1, v0, v1, q);
    SizeStep(r1, r2, v1, v2);
  }

  lemma EuclidRow(x: int, r0: int, r1: int, v0: int, v1: int, q: int)
    requires Cong(v0 * x, r0, P) && Cong(v1 * x, r1, P)
    ensures Cong((v0 - q * v1) * x, r0 - q * r1, P)
  {
    CongMul(q, q, v1 * x, r1, P);
    CongAdd(v0 * x, r0, q * (v1 * x), q * r1, P);
    assert (v0 - q * v1) * x == v0 * x - q * (v1 * x);
  }

  lemma SignStep(r0: int, r1: int, v0: int, v1: int, q: int)
    requires q >= 1
    requires (v0 <= 0 < v1 && r0 * v1 - r1 * v0 == P) || (v1 < 0 <= v0 && r1 * v0 - r0 * v1 == P)
    ensures var r2, v2 := r0 - q * r1, v0 - q * v1;
      (v1 <= 0 < v2 && r1 * v2 - r2 * v1 == P) || (v2 < 0 <= v1 && r2 * v1 - r1 * v2 == P)
  {
    var r2, v2 := r0 - q * r1, v0 - q * v1;
    assert r1 * v2 == r1 * v0 - r1 * (q * v1) && r2 * v1 == r0 * v1 - q * r1 * v1 && r1 * (q * v1) == q * r1 * v1;
    if v1 > 0 { MulMono(1, q, v1); } else { MulMono(1, q, -v1); assert q * -v1 == -(q * v1); }
  }

  lemma SizeStep(r1: int, r2: int, v1: int, v2: int)
    requires 0 <= r2 < r1
    requires (v1 <= 0 < v2 && r1 * v2 - r2 * v1 == P) || (v2 < 0 <= v1 && r2 * v1 - r1 * v2 == P)
    ensures r2 != 0 ==> -P < v2 < P
  {
    if r2 != 0 {
      if v2 > 0 {
        MulMono(2, r1, v2);
        MulMono(0, r2, -v1);
        assert r2 * -v1 == -(r2 * v1);
      } else {
        MulMono(2, r1, -v2);
        MulMono(0, r2, v1);
        assert r1 * -v2 == -(r1 * v2);
      }
    }
  }

  /** At the end r0 is the common divisor of x and the prime: 1. */
  lemma EuclidEnd(x: Word, r0: int, v0: int, v1: int)
    requires x > 1 && r0 > 0 && Euclid(x, r0, 0, v0, v1)
    ensures var v := if v0 < 0 then v0 + P else v0; v % MODA >= 0 && Inverse(x, v % MODA)
  {
    PIsPrime();
    DividesIntro(r0, r0, 1);
    DividesIntro(r0, 0, 0);
    assert Divides(r0, P) && Divides(r0, x);
    DividesBound(r0, x);
    if v0 == 0 {
      CongMod(1, P);
      CongMod(0, P);
    }
    CongIntro((v0 + P) * x, v0 * x, P, x);
    var v := if v0 < 0 then v0 + P else v0;
    UshortIs(v);
    assert V(v % MODA) == v && V(x) == x;
    assert x * v == v * x;
  }
}
