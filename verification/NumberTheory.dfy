/** The arithmetic facts behind the public-key routines: divisibility, powers modulo m, Fermat. */
module NumberTheory {

  // ------------------------------------------------------------ divisibility

  predicate Divides(d: int, n: int)
  {
    if d == 0 then n == 0 else n % d == 0
  }

  lemma DivMod(n: int, m: int)
    requires m != 0
    ensures n == m * (n / m) + n % m
  {
  }

  lemma MulMono(x: int, y: int, p: int)
    requires x <= y && 0 <= p
    ensures x * p <= y * p
  {
    assert (y - x) * p >= 0;
  }

  lemma MulPositive(x: int, y: int)
    requires x > 0 && y > 0
    ensures x * y > 0
  {
    MulMono(1, x, y);
  }

  /** A multiple of m strictly between -m and m is zero. */
  lemma SmallMultiple(m: int, k: int)
    requires m > 0 && -m < m * k < m
    ensures k == 0
  {
    if k >= 1 { MulMono(1, k, m); }
    if k <= -1 { MulMono(k, -1, m); }
  }

  lemma DividesIntro(d: int, n: int, k: int)
    requires n == d * k
    ensures Divides(d, n)
  {
    if d != 0 {
      DivMod(n, d);
      var m := if d > 0 then d else -d;
      var c := if d > 0 then k - n / d else n / d - k;
      assert n % d == m * c by { assert d * k - d * (n / d) == d * (k - n / d); }
      SmallMultiple(m, c);
    }
  }

  lemma DividesElim(d: int, n: int) returns (k: int)
    requires Divides(d, n)
    ensures n == d * k
  {
    if d == 0 {
      k := 0;
    } else {
      k := n / d;
      DivMod(n, d);
    }
  }

  lemma DividesLinear(d: int, x: int, y: int, s: int, t: int)
    requires Divides(d, x) && Divides(d, y)
    ensures Divides(d, s * x + t * y)
  {
    var k := DividesElim(d, x);
    var l := DividesElim(d, y);
    assert s * (d * k) + t * (d * l) == d * (s * k + t * l);
    DividesIntro(d, s * x + t * y, s * k + t * l);
  }

  lemma DividesTrans(a: int, b: int, c: int)
    requires Divides(a, b) && Divides(b, c)
    ensures Divides(a, c)
  {
    var k := DividesElim(a, b);
    var l := DividesElim(b, c);
    assert a * k * l == a * (k * l);
    DividesIntro(a, c, k * l);
  }

  lemma DividesBound(d: int, n: int)
    requires Divides(d, n) && n > 0
    ensures d <= n
  {
    var k := DividesElim(d, n);
    if d > n {
      if k <= 0 { MulMono(k, 0, d); } else { MulMono(1, k, d); }
    }
  }

  /** g is a common divisor of a and b that every common divisor divides. */
  ghost predicate IsGcd(g: int, a: int, b: int)
  {
    && g >= 0 && Divides(g, a) && Divides(g, b)
    && forall d :: Divides(d, a) && Divides(d, b) ==> Divides(d, g)
  }

  lemma GcdUnique(g: int, h: int, a: int, b: int)
    requires IsGcd(g, a, b) && IsGcd(h, a, b)
    ensures g == h
  {
    assert Divides(g, h) && Divides(h, g);
    if g > 0 && h > 0 {
      DividesBound(g, h);
      DividesBound(h, g);
    }
  }

  /** A common divisor that is a combination of a and b is the greatest one. */
  lemma GcdFromCombination(g: int, a: int, b: int, x: int, y: int)
    requires g >= 0 && Divides(g, a) && Divides(g, b) && g == a * x + b * y
    ensures IsGcd(g, a, b)
  {
    forall d | Divides(d, a) && Divides(d, b) ensures Divides(d, g) {
      DividesLinear(d, a, b, x, y);
      assert x * a + y * b == g;
    }
  }

  lemma {:induction false} Bezout(a: nat, b: nat) returns (g: int, x: int, y: int)
    ensures IsGcd(g, a, b) && g == a * x + b * y
    decreases b
  {
    if b == 0 {
      g, x, y := a, 1, 0;
      DividesIntro(a, a, 1);
      DividesIntro(a, 0, 0);
      GcdFromCombination(g, a, b, x, y);
    } else {
      var x', y';
      g, x', y' := Bezout(b, a % b);
      DivMod(a, b);
      var q, r := a / b, a % b;
      assert a == q * b + 1 * r;
      DividesLinear(g, b, r, q, 1);
      x, y := y', x' - q * y';
      assert b * x' + r * y' == a * y' + b * (x' - q * y') by {
        assert (q * b + r) * y' == q * b * y' + r * y';
        assert b * (q * y') == q * b * y';
      }
      GcdFromCombination(g, a, b, x, y);
    }
  }

  // -------------------------------------------------------------- congruence

  predicate Cong(x: int, y: int, m: int)
    requires m > 0
  {
    x % m == y % m
  }

  lemma CongIntro(x: int, y: int, m: int, k: int)
    requires m > 0 && x == y + m * k
    ensures Cong(x, y, m)
  {
    DivMod(x, m);
    DivMod(y, m);
    var c := x / m - y / m - k;
    assert y % m - x % m == m * c by {
      assert m * (x / m) - m * (y / m) - m * k == m * c;
    }
    SmallMultiple(m, c);
  }

  lemma CongElim(x: int, y: int, m: int) returns (k: int)
    requires m > 0 && Cong(x, y, m)
    ensures x == y + m * k
  {
    DivMod(x, m);
    DivMod(y, m);
    k := x / m - y / m;
    assert m * (x / m) - m * (y / m) == m * k;
  }

  lemma CongMod(x: int, m: int)
    requires m > 0
    ensures Cong(x % m, x, m) && 0 <= x % m < m
    ensures forall y :: 0 <= y < m ==> y % m == y
  {
    DivMod(x, m);
    assert x % m == x + m * -(x / m) by { assert m * -(x / m) == -(m * (x / m)); }
    CongIntro(x % m, x, m, -(x / m));
    forall y | 0 <= y < m ensures y % m == y {
      DivMod(y, m);
      var q := y / m;
      if q >= 1 { MulMono(1, q, m); }
      if q <= -1 { MulMono(q, -1, m); }
    }
  }

  lemma CongDivides(x: int, y: int, m: int)
    requires m > 0
    ensures Cong(x, y, m) <==> Divides(m, x - y)
  {
    if Cong(x, y, m) {
      var k := CongElim(x, y, m);
      DividesIntro(m, x - y, k);
    }
    if Divides(m, x - y) {
      var k := DividesElim(m, x - y);
      CongIntro(x, y, m, k);
    }
  }

  lemma CongScale(x: int, x': int, y: int, m: int)
    requires m > 0 && Cong(x, x', m)
    ensures Cong(x * y, x' * y, m) && Cong(y * x, y * x', m)
  {
    var k := CongElim(x, x', m);
    hide Cong;
    ScaledSum(x', m, k, y);
    CongIntro(x * y, x' * y, m, k * y);
  }

  lemma ScaledSum(a: int, m: int, k: int, y: int)
    ensures (a + m * k) * y == a * y + m * (k * y)
  {
    assert m * k * y == m * (k * y);
  }

  lemma CongMul(x: int, x': int, y: int, y': int, m: int)
    requires m > 0 && Cong(x, x', m) && Cong(y, y', m)
    ensures Cong(x * y, x' * y', m)
  {
    CongScale(x, x', y, m);
    CongScale(y, y', x', m);
  }

  lemma CongAdd(x: int, x': int, y: int, y': int, m: int)
    requires m > 0 && Cong(x, x', m) && Cong(y, y', m)
    ensures Cong(x + y, x' + y', m) && Cong(x - y, x' - y', m)
  {
    var k := CongElim(x, x', m);
    var l := CongElim(y, y', m);
    assert m * k + m * l == m * (k + l) && m * k - m * l == m * (k - l);
    CongIntro(x + y, x' + y', m, k + l);
    CongIntro(x - y, x' - y', m, k - l);
  }

  /** Congruent modulo a multiple of m, hence modulo m. */
  lemma CongFactor(x: int, y: int, m: int, n: int)
    requires m > 0 && n > 0 && Cong(x, y, m * n) && m * n > 0
    ensures Cong(x, y, m)
  {
    var k := CongElim(x, y, m * n);
    assert m * n * k == m * (n * k);
    CongIntro(x, y, m, n * k);
  }

  // ------------------------------------------------------------------ powers

  function Pow(b: int, e: nat): int
  {
    if e == 0 then 1 else b * Pow(b, e - 1)
  }

  lemma {:induction false} PowAdd(b: int, m: nat, n: nat)
    ensures Pow(b, m + n) == Pow(b, m) * Pow(b, n)
  {
    if m > 0 {
      PowAdd(b, m - 1, n);
      assert b * (Pow(b, m - 1) * Pow(b, n)) == b * Pow(b, m - 1) * Pow(b, n);
    }
  }

  lemma {:induction false} PowMul(b: int, m: nat, n: nat)
    ensures Pow(b, m * n) == Pow(Pow(b, m), n)
  {
    if n == 0 {
      assert m * n == 0;
    } else {
      PowMul(b, m, n - 1);
      assert m * n == m + m * (n - 1);
      PowAdd(b, m, m * (n - 1));
    }
  }

  lemma {:induction false} PowOne(n: nat)
    ensures Pow(1, n) == 1
  {
    if n > 0 { PowOne(n - 1); }
  }

  lemma {:induction false} PowCong(a: int, b: int, n: nat, m: int)
    requires m > 0 && Cong(a, b, m)
    ensures Cong(Pow(a, n), Pow(b, n), m)
  {
    if n > 0 {
      PowCong(a, b, n - 1, m);
      CongMul(a, b, Pow(a, n - 1), Pow(b, n - 1), m);
    }
  }

  // ------------------------------------------------------------------ primes

  ghost predicate Prime(p: int)
  {
    p >= 2 && forall d :: 1 < d < p ==> !Divides(d, p)
  }

  /** A number is coprime to p or divisible by it. */
  lemma PrimeGcd(p: int, a: nat) returns (x: int, y: int)
    requires Prime(p) && !Divides(p, a)
    ensures 1 == a * x + p * y
  {
    var g: int;
    g, x, y := Bezout(a, p);
    DividesBound(g, p);
    assert Divides(g, p) && Divides(g, a);
  }

  /** Euclid's lemma. */
  lemma PrimeDividesProduct(p: int, a: nat, b: int)
    requires Prime(p) && Divides(p, a * b)
    ensures Divides(p, a) || Divides(p, b)
  {
    if !Divides(p, a) {
      var x, y := PrimeGcd(p, a);
      DividesIntro(p, p, 1);
      DividesLinear(p, a * b, p, x, b * y);
      assert x * (a * b) + b * y * p == b * (a * x + p * y) by {
        assert x * (a * b) == b * (a * x) && b * y * p == b * (p * y);
      }
      assert b * 1 == b;
    }
  }

  // --------------------------------------------- Fermat's little theorem

  function Choose(n: nat, k: nat): nat
  {
    if k == 0 then 1 else if n == 0 then 0 else Choose(n - 1, k - 1) + Choose(n - 1, k)
  }

  lemma {:induction false} ChooseZero(n: nat, k: nat)
    requires n < k
    ensures Choose(n, k) == 0
  {
    if n > 0 { ChooseZero(n - 1, k - 1); ChooseZero(n - 1, k); }
  }

  lemma {:induction false} ChooseAll(n: nat)
    ensures Choose(n, n) == 1
  {
    if n > 0 { ChooseAll(n - 1); ChooseZero(n - 1, n); }
  }

  /** k * C(n,k) = n * C(n-1,k-1) */
  lemma {:induction false} ChooseAbsorb(n: nat, k: nat)
    requires n >= 1 && k >= 1
    ensures k * Choose(n, k) == n * Choose(n - 1, k - 1)
  {
    if n == 1 {
      if k > 1 { ChooseZero(1, k); ChooseZero(0, k - 1); }
    } else {
      ChooseAbsorb(n - 1, k);
      if k > 1 {
        ChooseAbsorb(n - 1, k - 1);
        AbsorbStep(n, k, Choose(n - 1, k - 1), Choose(n - 1, k), Choose(n - 2, k - 2), Choose(n - 2, k - 1));
      }
    }
  }

  lemma AbsorbStep(n: int, k: int, x: int, y: int, c0: int, c1: int)
    requires k * y == (n - 1) * c1 && (k - 1) * x == (n - 1) * c0 && x == c0 + c1
    ensures k * (x + y) == n * x
  {
    assert k * (x + y) == (k - 1) * x + x + k * y;
    assert (n - 1) * c0 + (n - 1) * c1 == (n - 1) * (c0 + c1);
  }

  /** C(n,0) + C(n,1) a + ... + C(n,k) a^k */
  function BinSum(a: int, n: nat, k: nat): int
  {
    Choose(n, k) * Pow(a, k) + if k == 0 then 0 else BinSum(a, n, k - 1)
  }

  lemma {:induction false} BinSumStep(a: int, n: nat, k: nat)
    requires k >= 1
    ensures BinSum(a, n + 1, k) == BinSum(a, n, k) + a * BinSum(a, n, k - 1)
  {
    var c, d, p := Choose(n, k - 1), Choose(n, k), Pow(a, k - 1);
    assert Choose(n + 1, k) == c + d;
    assert (c + d) * (a * p) == d * (a * p) + a * (c * p);
    if k > 1 {
      BinSumStep(a, n, k - 1);
      assert a * (c * p + BinSum(a, n, k - 2)) == a * (c * p) + a * BinSum(a, n, k - 2);
    } else {
      assert Choose(n + 1, 0) == 1 && Choose(n, 0) == 1;
    }
  }

  lemma {:induction false} Binomial(a: int, n: nat)
    ensures Pow(a + 1, n) == BinSum(a, n, n)
  {
    if n > 0 {
      Binomial(a, n - 1);
      BinSumStep(a, n - 1, n);
      BinSumTop(a, n - 1);
      NextPower(a, n - 1);
    }
  }

  lemma BinSumTop(a: int, n: nat)
    ensures BinSum(a, n, n + 1) == BinSum(a, n, n)
  {
    ChooseZero(n, n + 1);
    assert 0 * Pow(a, n + 1) == 0;
  }

  lemma NextPower(a: int, n: nat)
    ensures Pow(a + 1, n + 1) == a * Pow(a + 1, n) + Pow(a + 1, n)
  {
    var p := Pow(a + 1, n);
    assert Pow(a + 1, n + 1) == (a + 1) * p;
  }

  lemma {:induction false} MiddleTermsVanish(a: int, p: int, k: nat)
    requires Prime(p) && k < p
    ensures Cong(BinSum(a, p, k), 1, p)
  {
    if k == 0 {
      assert BinSum(a, p, 0) == 1 * 1;
    } else {
      MiddleTermsVanish(a, p, k - 1);
      ChooseAbsorb(p, k);
      DividesIntro(p, k * Choose(p, k), Choose(p - 1, k - 1));
      PrimeDividesProduct(p, k, Choose(p, k));
      if Divides(p, k) { DividesBound(p, k); }
      DividesIntro(p, p, 1);
      DividesLinear(p, Choose(p, k), p, Pow(a, k), 0);
      assert Pow(a, k) * Choose(p, k) + 0 * p == Choose(p, k) * Pow(a, k);
      CongDivides(Choose(p, k) * Pow(a, k), 0, p);
      CongAdd(Choose(p, k) * Pow(a, k), 0, BinSum(a, p, k - 1), 1, p);
    }
  }

  lemma {:induction false} FermatPower(a: nat, p: int)
    requires Prime(p)
    ensures Cong(Pow(a, p), a, p)
  {
    if a == 0 {
      assert Pow(0, p) == 0;
    } else {
      FermatPower(a - 1, p);
      Binomial(a - 1, p);
      MiddleTermsVanish(a - 1, p, p - 1);
      ChooseAll(p);
      assert BinSum(a - 1, p, p) == 1 * Pow(a - 1, p) + BinSum(a - 1, p, p - 1);
      CongAdd(Pow(a - 1, p), a - 1, BinSum(a - 1, p, p - 1), 1, p);
    }
  }

  /** Fermat's little theorem. */
  lemma Fermat(a: nat, p: int)
    requires Prime(p) && !Divides(p, a)
    ensures Cong(Pow(a, p - 1), 1, p)
  {
    FermatPower(a, p);
    CongDivides(Pow(a, p), a, p);
    assert Pow(a, p) - a == a * (Pow(a, p - 1) - 1) by {
      assert a * (Pow(a, p - 1) - 1) == a * Pow(a, p - 1) - a;
    }
    PrimeDividesProduct(p, a, Pow(a, p - 1) - 1);
    CongDivides(Pow(a, p - 1), 1, p);
  }
}
