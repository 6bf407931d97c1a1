/** RSA on multi-precision integers: key relations, encryption, decryption by Garner's recombination. */
module Rsa {
  import opened Options
  import opened MpInts
  import opened MpModular
  import opened MpMul
  import opened MpGcd
  import NT = NumberTheory

  /** What mpexp computes for a base that is not negative: exponent zero gives 1 before any reduction. */
  function ModExp(b: int, e: nat, m: int): (r: int)
    requires m > 0
  {
    if e == 0 then 1 else NT.Pow(b, e) % m
  }

  lemma ModExpCong(b: int, e: nat, m: int)
    requires m > 1
    ensures NT.Cong(ModExp(b, e, m), NT.Pow(b, e), m) && 0 <= ModExp(b, e, m) < m
  {
    if e > 0 { NT.CongMod(NT.Pow(b, e), m); }
  }

  // -------------------------------------------------------------------- RSA

  /** The numbers of a private key and the relations rsafill establishes. */
  datatype RsaKey = RsaKey(n: int, e: nat, d: nat, p: int, q: int, kp: nat, kq: nat, c2: nat)
  {
    ghost predicate Filled()
    {
      && NT.Prime(p) && NT.Prime(q) && p != q
      && n == p * q && Phi(p, q) > 0 && NT.Cong(e * d, 1, Phi(p, q))
      && kp == d % (p - 1) && kq == d % (q - 1)
      && 0 <= c2 < q && NT.Cong(p * c2, 1, q)
    }

    ghost predicate Valid()
    {
      Filled() && p > 2 && q > 2
    }
  }

  function Encrypt(key: RsaKey, m: int): int
    requires key.n > 0
  {
    ModExp(m, key.e, key.n)
  }

  function Decrypt(key: RsaKey, c: int): int
    requires key.p > 0 && key.q > 0
  {
    Recombine(ModExp(c % key.p, key.kp, key.p), ModExp(c % key.q, key.kq, key.q), key.p, key.q, key.c2)
  }

  /** Garner's recombination of two residues. */
  function Recombine(v1: int, v2: int, p: int, q: int, c2: int): int
    requires q > 0
  {
    v1 + ((v2 - v1) * c2) % q * p
  }

  /** An exponent congruent to 1 modulo r - 1 fixes every residue modulo a prime r. */
  lemma ExponentOne(m: nat, x: nat, r: int)
    requires NT.Prime(r) && r > 2 && NT.Cong(x, 1, r - 1)
    ensures NT.Cong(NT.Pow(m, x), m, r) && x > 0
  {
    NT.CongMod(1, r - 1);
    var k := NT.CongElim(x, 1, r - 1);
    if k < 0 { NT.MulMono(k, -1, r - 1); }
    if NT.Divides(r, m) {
      NT.CongDivides(m, 0, r);
      NT.PowCong(m, 0, x, r);
      assert NT.Pow(0, x) == 0;
    } else {
      NT.Fermat(m, r);
      PowersRepeat(m, r, r - 1, 1, k);
      assert x == 1 + (r - 1) * k && NT.Pow(m, 1) == m * NT.Pow(m, 0);
    }
  }

  /** Exponents that differ by a multiple of the order give congruent powers. */
  lemma PowersRepeat(a: int, m: int, order: nat, x: nat, k: nat)
    requires m > 0 && NT.Cong(NT.Pow(a, order), 1, m)
    ensures x + order * k >= 0 && NT.Cong(NT.Pow(a, x + order * k), NT.Pow(a, x), m)
  {
    NT.MulMono(0, order, k);
    NT.PowAdd(a, x, order * k);
    NT.PowMul(a, order, k);
    NT.PowCong(NT.Pow(a, order), 1, k, m);
    NT.PowOne(k);
    NT.CongMul(NT.Pow(a, x), NT.Pow(a, x), NT.Pow(a, order * k), 1, m);
  }

  /** One residue of the decryption: with c = m^e, raising to d mod (r-1) brings m back modulo r. */
  lemma ResidueRestored(c: nat, m: nat, e: nat, d: nat, r: int)
    requires NT.Prime(r) && r > 2 && NT.Cong(e * d, 1, r - 1) && NT.Cong(c, NT.Pow(m, e), r)
    ensures ModExp(c % r, d % (r - 1), r) == m % r
  {
    var k := d % (r - 1);
    NT.CongMod(d, r - 1);
    NT.CongMod(c, r);
    NT.MulMono(0, e, d);
    ExponentOne(m, e * d, r);
    // c^d is m^(e*d), which is m
    NT.PowMul(m, e, d);
    NT.PowCong(c, NT.Pow(m, e), d, r);
    // k is positive, because e*k is still 1 modulo r - 1
    if k == 0 {
      NT.CongMul(e, e, d, 0, r - 1);
      NT.CongMod(1, r - 1);
      NT.CongMod(0, r - 1);
    }
    ReducedExponent(c, d, r);
    NT.PowCong(c % r, c, k, r);
    NT.CongMod(NT.Pow(c % r, k), r);
  }

  /** c^(d mod (r-1)) is c^d modulo a prime r, zero residues included since the exponent stays positive. */
  lemma ReducedExponent(c: nat, d: nat, r: int)
    requires NT.Prime(r) && r > 2 && d % (r - 1) > 0
    ensures NT.Cong(NT.Pow(c, d % (r - 1)), NT.Pow(c, d), r)
  {
    var k, j := d % (r - 1), d / (r - 1);
    NT.DivMod(d, r - 1);
    NT.CongMod(d, r - 1);
    QuotientNotNegative(d, r - 1);
    if NT.Divides(r, c) {
      NT.CongDivides(c, 0, r);
      NT.PowCong(c, 0, k, r);
      NT.PowCong(c, 0, d, r);
      assert NT.Pow(0, k) == 0 && NT.Pow(0, d) == 0;
    } else {
      NT.Fermat(c, r);
      PowersRepeat(c, r, r - 1, k, j);
    }
  }

  lemma QuotientNotNegative(d: nat, m: int)
    requires m > 0
    ensures d / m >= 0
  {
  }

  /** Numbers congruent modulo two distinct primes are congruent modulo the product. */
  lemma TwoResidues(x: int, y: int, p: int, q: int)
    requires NT.Prime(p) && NT.Prime(q) && p != q && p * q > 0
    requires NT.Cong(x, y, p) && NT.Cong(x, y, q)
    ensures NT.Cong(x, y, p * q)
  {
    NT.CongDivides(x, y, p);
    NT.CongDivides(x, y, q);
    var k := NT.DividesElim(p, x - y);
    NT.PrimeDividesProduct(q, p, k);
    if NT.Divides(q, p) { NT.DividesBound(q, p); }
    var l := NT.DividesElim(q, k);
    assert p * (q * l) == p * q * l;
    NT.CongIntro(x, y, p * q, l);
  }

  lemma GarnerRange(v1: nat, t: int, p: int, q: int)
    requires p > 1 && v1 < p && 0 <= t < q
    ensures 0 <= v1 + t * p < p * q
  {
    NT.MulMono(t, q - 1, p);
    NT.MulMono(0, t, p);
    assert (q - 1) * p == p * q - p;
  }

  /** The recombined number has both residues and lies below p*q. */
  lemma Garner(v1: nat, v2: nat, p: int, q: int, c2: int)
    requires p > 1 && q > 1 && v1 < p && v2 < q && NT.Cong(p * c2, 1, q)
    ensures var out := Recombine(v1, v2, p, q, c2);
      0 <= out < p * q && NT.Cong(out, v1, p) && NT.Cong(out, v2, q)
  {
    var dv := v2 - v1;
    var w := dv * c2;
    var t := w % q;
    NT.CongMod(w, q);
    GarnerRange(v1, t, p, q);
    NT.CongIntro(v1 + t * p, v1, p, t);
    NT.CongMul(t, w, p, p, q);
    NT.CongMul(p * c2, 1, dv, dv, q);
    Rearrange(dv, c2, p);
    NT.CongAdd(v1, v1, t * p, dv, q);
  }

  lemma Rearrange(x: int, y: int, z: int)
    ensures x * y * z == z * y * x
  {
    assert x * y * z == x * (y * z);
  }

  lemma ExponentModFactor(e: nat, d: nat, p: int, q: int)
    requires p > 1 && q > 1 && Phi(p, q) > 0 && NT.Cong(e * d, 1, Phi(p, q))
    ensures NT.Cong(e * d, 1, p - 1) && NT.Cong(e * d, 1, q - 1)
  {
    NT.CongFactor(e * d, 1, p - 1, q - 1);
    assert (p - 1) * (q - 1) == (q - 1) * (p - 1);
    NT.CongFactor(e * d, 1, q - 1, p - 1);
  }

  /** RSADP undoes RSAEP (RFC 8017, sections 5.1.1 and 5.1.2) on every message representative. */
  lemma DecryptEncrypt(key: RsaKey, m: nat)
    requires key.Valid() && m < key.n
    ensures key.n > 0 && Decrypt(key, Encrypt(key, m)) == m
  {
    var p, q, n, e, d := key.p, key.q, key.n, key.e, key.d;
    NT.MulMono(2, q, p);
    var c := Encrypt(key, m);
    ModExpCong(m, e, n);
    ExponentModFactor(e, d, p, q);
    NT.CongFactor(c, NT.Pow(m, e), p, q);
    assert q * p == n;
    NT.CongFactor(c, NT.Pow(m, e), q, p);
    ResidueRestored(c, m, e, d, p);
    ResidueRestored(c, m, e, d, q);
    NT.CongMod(m, p);
    NT.CongMod(m, q);
    Garner(m % p, m % q, p, q, key.c2);
    var out := Decrypt(key, c);
    TwoResidues(out, m, p, q);
    NT.CongMod(out, n);
  }

  /** With 2 as one of the primes the key's exponent modulo 1 is zero, and zero raised to it is 1. */
  lemma ZeroMiscarries(key: RsaKey)
    requires key.Filled() && (key.p == 2 || key.q == 2)
    ensures key.n > 0 && Decrypt(key, Encrypt(key, 0)) != 0
  {
    var p, q, n := key.p, key.q, key.n;
    NT.MulMono(2, q, p);
    ExponentModFactor(key.e, key.d, p, q);
    if key.e == 0 {
      assert key.e * key.d == 0;
      var r := if p > 2 then p else q;
      NT.CongMod(1, r - 1);
      NT.CongMod(0, r - 1);
      assert false;
    }
    assert NT.Pow(0, key.e) == 0;
    NT.CongMod(0, n); NT.CongMod(0, p); NT.CongMod(0, q);
    NT.CongMod(key.d, 1);
    var v1, v2 := ModExp(0, key.kp, p), ModExp(0, key.kq, q);
    ModExpCong(0, key.kp, p);
    ModExpCong(0, key.kq, q);
    Garner(v1, v2, p, q, key.c2);
    NT.CongMod(1, 2);
  }

  const KeyOfTwo: RsaKey := RsaKey(10, 3, 3, 2, 5, 0, 3, 3)

  lemma TwoAndFive()
    ensures NT.Prime(2) && NT.Prime(5) && Phi(2, 5) == 4
  {
  }

  /** The numbers p = 2, q = 5, e = d = 3 pass all the checks of rsafill, and 0 is decrypted to 5. */
  lemma TwoIsAccepted()
    ensures KeyOfTwo.Filled() && Matches(10, 3, 3, 2, 5)
    ensures Encrypt(KeyOfTwo, 0) == 0 && Decrypt(KeyOfTwo, 0) == 5
  {
    hide NT.Prime, Phi, NT.Pow;
    TwoAndFive();
    assert NT.Pow(0, 3) == 0 by { ZeroCubed(); }
  }

  lemma ZeroCubed()
    ensures NT.Pow(0, 3) == 0
  {
  }

  /** Exactly when a key that rsafill made decrypts every message: both primes are odd. */
  lemma DecryptionCorrect(key: RsaKey)
    requires key.Filled()
    ensures key.n > 0
    ensures (forall m: nat :: m < key.n ==> Decrypt(key, Encrypt(key, m)) == m) <==> key.p > 2 && key.q > 2
  {
    NT.MulMono(2, key.q, key.p);
    if key.p > 2 && key.q > 2 {
      forall m: nat | m < key.n ensures Decrypt(key, Encrypt(key, m)) == m {
        DecryptEncrypt(key, m);
      }
    } else {
      ZeroMiscarries(key);
      var zero: nat := 0;
      assert Decrypt(key, Encrypt(key, zero)) != zero;
    }
  }

  /** A number with a plus sign. */
  ghost predicate Plus(x: MpInt)
    reads x, x.p
  {
    x.Valid() && x.sign == 1
  }

  /** mpexp of a number in place, or into a buffer of its own, modulo m. */
  method ExpMod(b: MpInt, e: MpInt, m: MpInt, res: MpInt)
    requires Plus(b) && Plus(e) && Plus(m) && m.V() > 0 && res.Shape() && Own(b, res) && Own(e, res) && Own(m, res)
    modifies res, res.p
    ensures Plus(res) && (res.p == old(res.p) || fresh(res.p))
    ensures old(e.V()) >= 0 && old(m.V()) > 0 && res.V() == ModExp(old(b.V()), old(e.V()), old(m.V()))
  {
    hide NT.Pow, NT.Cong;
    MagIsZero(e);
    mpexp(b, e, m, res);
  }

  /** The record rsafill makes. */
  datatype RSApriv = RSApriv(n: MpInt, ek: MpInt, dk: MpInt, p: MpInt, q: MpInt, kp: MpInt, kq: MpInt, c2: MpInt)
  {
    /** The record's numbers are those of the key. */
    ghost predicate Holds(key: RsaKey)
      reads n, n.p, ek, ek.p, dk, dk.p, p, p.p, q, q.p, kp, kp.p, kq, kq.p, c2, c2.p
    {
      && Plus(n) && n.V() == key.n && Plus(ek) && ek.V() == key.e && Plus(dk) && dk.V() == key.d
      && Plus(p) && p.V() == key.p && Plus(q) && q.V() == key.q
      && Plus(kp) && kp.V() == key.kp && Plus(kq) && kq.V() == key.kq && Plus(c2) && c2.V() == key.c2
    }

    ghost predicate Avoids(x: MpInt)
      reads x, n, ek, dk, p, q, kp, kq, c2
    {
      && Two(n, x) && Two(ek, x) && Two(dk, x) && Two(p, x) && Two(q, x) && Two(kp, x) && Two(kq, x) && Two(c2, x)
    }
  }

  function Phi(p: int, q: int): int { (p - 1) * (q - 1) }

  lemma PhiPositive(p: int, q: int)
    requires p > 1 && q > 1
    ensures Phi(p, q) > 0 && p * q > 0
  {
    NT.MulPositive(p - 1, q - 1);
    NT.MulPositive(p, q);
  }

  predicate Matches(n: int, e: int, d: int, p: int, q: int)
  {
    n == p * q && Phi(p, q) > 0 && e * d % Phi(p, q) == 1
  }

  /** The test n == p*q && e*d == 1 mod (p-1)*(q-1). */
  method KeyChecks(n: MpInt, e: MpInt, d: MpInt, p: MpInt, q: MpInt) returns (ok: bool)
    requires n.Valid() && Plus(e) && Plus(d) && Plus(p) && Plus(q) && p.V() > 1 && q.V() > 1
    ensures ok <==> Matches(n.V(), e.V(), d.V(), p.V(), q.V())
    ensures ok ==> n.V() > 0
  {
    hide MpInt.Mag, MpInt.V, Phi;
    PhiPositive(p.V(), q.V());
    ok := ProductCheck(n, p, q);
    if ok {
      ok := ExponentCheck(e, d, p, q);
    }
  }

  method ProductCheck(n: MpInt, p: MpInt, q: MpInt) returns (ok: bool)
    requires n.Valid() && p.Valid() && q.Valid() && p.V() * q.V() > 0
    ensures ok <==> n.V() == p.V() * q.V()
  {
    hide MpInt.Mag, MpInt.V;
    var x := new MpInt(0);
    mpmul(p, q, x);
    var c := mpcmp(n, x);
    ok := c == 0;
  }

  method ExponentCheck(e: MpInt, d: MpInt, p: MpInt, q: MpInt) returns (ok: bool)
    requires Plus(e) && Plus(d) && Plus(p) && Plus(q) && Phi(p.V(), q.V()) > 0
    ensures ok <==> e.V() * d.V() % Phi(p.V(), q.V()) == 1
  {
    hide MpInt.Mag, MpInt.V;
    PositiveProduct(e, d);
    var x, c2 := PhiOf(p, q);
    mpmul(e, d, c2);
    ModOntoModulus(c2, x);
    var one := new MpInt.OfDigit(1);
    var c := mpcmp(x, one);
    ok := c == 0;
  }

  method PhiOf(p: MpInt, q: MpInt) returns (x: MpInt, c2: MpInt)
    requires p.Valid() && q.Valid()
    ensures fresh(x) && fresh(x.p) && fresh(c2) && fresh(c2.p) && Two(x, c2) && c2.Shape()
    ensures x.Valid() && x.V() == Phi(p.V(), q.V())
  {
    hide MpInt.Mag, MpInt.V;
    var one := new MpInt.OfDigit(1);
    c2 := new MpInt(0);
    x := new MpInt(0);
    mpsub(p, one, c2);
    mpsub(q, one, x);
    mpmul(c2, x, x);
  }

  lemma PositiveProduct(e: MpInt, d: MpInt)
    requires Plus(e) && Plus(d)
    ensures e.V() * d.V() >= 0
  {
    SignOfProduct(e.V(), d.V());
  }

  /** mpmod(b, x, x) for a b that is not negative. */
  method ModOntoModulus(b: MpInt, x: MpInt)
    requires b.Valid() && x.Valid() && x.V() > 0 && Two(b, x) && b.V() >= 0 && (b.top == 0 ==> b.sign == 1)
    modifies x, x.p
    ensures x.Valid() && (x.p == old(x.p) || fresh(x.p)) && x.V() == b.V() % old(x.V())
  {
    MagIsZero(x); MagIsZero(b);
    mpmod(b, x, x);
  }

  /** The derived numbers: c2 = p^-1 mod q, kp = d mod (p-1), kq = d mod (q-1). */
  method Derived(d: MpInt, p: MpInt, q: MpInt) returns (ok: bool, c2: MpInt, kp: MpInt, kq: MpInt)
    requires Plus(d) && Plus(p) && Plus(q) && p.V() > 1 && q.V() > 1
    ensures fresh(c2) && fresh(kp) && fresh(kq) && fresh(c2.p) && fresh(kp.p) && fresh(kq.p)
    ensures ok <==> NT.IsGcd(1, p.V(), q.V())
    ensures ok ==> c2.Valid() && 0 < c2.V() < q.V() && NT.Cong(p.V() * c2.V(), 1, q.V())
    ensures Plus(kp) && kp.V() == d.V() % (p.V() - 1) && Plus(kq) && kq.V() == d.V() % (q.V() - 1)
  {
    hide MpInt.Mag, NT.IsGcd, NT.Cong;
    c2 := new MpInt(0);
    ok := mpinvert(p, q, c2);
    kp := ModPred(d, p);
    kq := ModPred(d, q);
  }

  /** mpsub(p, mpone, x); mpmod(d, x, k) */
  method ModPred(d: MpInt, p: MpInt) returns (k: MpInt)
    requires Plus(d) && Plus(p) && p.V() > 1
    ensures fresh(k) && fresh(k.p) && Plus(k) && k.V() == d.V() % (p.V() - 1)
  {
    hide MpInt.Mag;
    var one := new MpInt.OfDigit(1);
    var x := new MpInt(0);
    mpsub(p, one, x);
    k := new MpInt(0);
    ModInto(d, x, k);
  }

  /** Fills a key, or none when a check fails.  primesLookOk is the verdict of probably_prime on p and q,
      taken to be right; a p without an inverse modulo q, where mpinvert aborts, gives none as well. */
  method rsafill(n: MpInt, e: MpInt, d: MpInt, p: MpInt, q: MpInt, primesLookOk: bool) returns (r: Option<RSApriv>, ghost key: RsaKey)
    requires n.Valid() && Plus(e) && Plus(d) && Plus(p) && Plus(q) && p.V() > 1 && q.V() > 1
    requires primesLookOk ==> NT.Prime(p.V()) && NT.Prime(q.V())
    ensures r.Some? <==> primesLookOk && Matches(n.V(), e.V(), d.V(), p.V(), q.V()) && p.V() != q.V()
    ensures r.Some? ==> r.value.Holds(key) && key.Filled()
    ensures r.Some? ==>
      && key.n == n.V() && key.e == e.V() && key.d == d.V() && key.p == p.V() && key.q == q.V()
  {
    hide MpInt.Mag, MpInt.V, NT.IsGcd, Phi, NT.Prime, NT.Cong, Matches, RsaKey.Filled, RSApriv.Holds;
    r, key := None, RsaKey(0, 0, 0, 0, 0, 0, 0, 0);
    if !primesLookOk { return; }
    DistinctPrimes(p.V(), q.V());
    var ok := KeyChecks(n, e, d, p, q);
    if !ok { return; }
    var c2, kp, kq;
    ok, c2, kp, kq := Derived(d, p, q);
    if !ok { return; }
    SignOfValue(n); SignOfValue(c2);
    var rsa;
    rsa, key := MakeKey(n, e, d, p, q, c2, kp, kq);
    KeyFilled(key);
    r := Some(rsa);
  }

  /** Two primes are different just when the first has an inverse modulo the second. */
  lemma DistinctPrimes(p: int, q: int)
    requires NT.Prime(p) && NT.Prime(q)
    ensures p != q <==> NT.IsGcd(1, p, q)
  {
    if p == q {
      NT.DividesIntro(p, p, 1);
      if NT.IsGcd(1, p, q) {
        assert NT.Divides(p, 1);
        NT.DividesBound(p, 1);
      }
    } else {
      if NT.Divides(p, q) { NT.DividesBound(p, q); }
      var x, y := NT.PrimeGcd(p, q);
      forall d | NT.Divides(d, p) && NT.Divides(d, q) ensures NT.Divides(d, 1) {
        NT.DividesLinear(d, q, p, x, y);
      }
      NT.DividesIntro(1, p, p);
      NT.DividesIntro(1, q, q);
    }
  }

  lemma KeyFilled(key: RsaKey)
    requires NT.Prime(key.p) && NT.Prime(key.q) && key.p != key.q && Matches(key.n, key.e, key.d, key.p, key.q)
    requires key.kp == key.d % (key.p - 1) && key.kq == key.d % (key.q - 1)
    requires 0 <= key.c2 < key.q && NT.Cong(key.p * key.c2, 1, key.q)
    ensures key.Filled()
  {
    hide Phi;
    var f := Phi(key.p, key.q);
    var w := key.e * key.d;
    NT.CongMod(w, f);
    NT.CongMod(1, f);
  }

  method MakeKey(n: MpInt, e: MpInt, d: MpInt, p: MpInt, q: MpInt, c2: MpInt, kp: MpInt, kq: MpInt)
      returns (rsa: RSApriv, ghost key: RsaKey)
    requires Plus(n) && Plus(e) && Plus(d) && Plus(p) && Plus(q) && Plus(c2) && Plus(kp) && Plus(kq)
    ensures rsa.Holds(key)
    ensures e.V() >= 0 && d.V() >= 0 && kp.V() >= 0 && kq.V() >= 0 && c2.V() >= 0
    ensures key == RsaKey(n.V(), e.V(), d.V(), p.V(), q.V(), kp.V(), kq.V(), c2.V())
  {
    hide MpInt.Mag, MpInt.V;
    PlusValue(e); PlusValue(d); PlusValue(kp); PlusValue(kq); PlusValue(c2);
    key := RsaKey(n.V(), e.V(), d.V(), p.V(), q.V(), kp.V(), kq.V(), c2.V());
    var ek, n', dk := CopyThree(e, n, d);
    var p', q', _ := CopyThree(p, q, q);
    rsa := RSApriv(n', ek, dk, p', q', kp, kq, c2);
  }

  lemma PlusValue(x: MpInt)
    requires Plus(x)
    ensures x.V() >= 0
  {
  }

  method CopyThree(x: MpInt, y: MpInt, z: MpInt) returns (x': MpInt, y': MpInt, z': MpInt)
    requires Plus(x) && Plus(y) && Plus(z)
    ensures Plus(x') && x'.V() == x.V() && Plus(y') && y'.V() == y.V() && Plus(z') && z'.V() == z.V()
  {
    hide MpInt.Mag, MpInt.V;
    x' := CopyPlus(x);
    y' := CopyPlus(y);
    z' := CopyPlus(z);
  }

  method CopyPlus(x: MpInt) returns (r: MpInt)
    requires Plus(x)
    ensures fresh(r) && fresh(r.p) && Plus(r) && r.V() == x.V()
  {
    r := mpcopy(x);
  }

  method rsaencrypt(rsa: RSApriv, m: MpInt, out: MpInt, ghost key: RsaKey)
    requires rsa.Holds(key) && key.n > 0 && rsa.Avoids(out) && Plus(m) && out.Shape() && Own(m, out)
    modifies out, out.p
    ensures Plus(out) && (out.p == old(out.p) || fresh(out.p))
    ensures out.V() == Encrypt(key, old(m.V()))
  {
    ExpMod(m, rsa.ek, rsa.n, out);
  }

  /** One residue of the ciphertext, raised to its exponent. */
  method Residue(c: MpInt, k: MpInt, p: MpInt) returns (v: MpInt)
    requires Plus(c) && Plus(k) && Plus(p) && p.V() > 0
    ensures fresh(v) && fresh(v.p) && Plus(v)
    ensures k.V() >= 0 && v.V() == ModExp(c.V() % p.V(), k.V(), p.V())
  {
    hide ModExp;
    v := new MpInt(0);
    ModInto(c, p, v);
    ExpMod(v, k, p, v);
  }

  /** out = v1 + p*((v2-v1)*c2 mod q); v2 is scratch. */
  method GarnerStep(v1: MpInt, v2: MpInt, p: MpInt, q: MpInt, c2: MpInt, out: MpInt)
    requires v1.Valid() && v2.Valid() && p.Valid() && Plus(q) && q.V() > 0 && c2.Valid() && out.Shape()
    requires Two(v1, v2) && Two(v2, p) && Two(v2, q) && Two(v2, c2) && Two(v2, out)
    requires Two(v1, out) && Two(p, out)
    modifies v2, v2.p, out, out.p
    ensures out.Valid() && (out.p == old(out.p) || fresh(out.p))
    ensures old(q.V()) > 0 && out.V() == Recombine(v1.V(), old(v2.V()), p.V(), old(q.V()), old(c2.V()))
  {
    hide MpInt.Mag, MpInt.V;
    mpsub(v2, v1, v2);
    mpmul(v2, c2, v2);
    ModInPlace(v2, q);
    mpmul(v2, p, out);
    mpadd(v1, out, out);
  }

  /** Decryption by the two residues; c may be out. */
  method rsadecrypt(rsa: RSApriv, c: MpInt, out: MpInt, ghost key: RsaKey)
    requires rsa.Holds(key) && key.p > 0 && key.q > 0 && rsa.Avoids(out) && Plus(c) && out.Shape() && Own(c, out)
    modifies out, out.p
    ensures out.Valid() && (out.p == old(out.p) || fresh(out.p))
    ensures out.V() == Decrypt(key, old(c.V()))
  {
    hide ModExp, MpInt.Mag;
    var v1 := Residue(c, rsa.kp, rsa.p);
    var v2 := Residue(c, rsa.kq, rsa.q);
    GarnerStep(v1, v2, rsa.p, rsa.q, rsa.c2, out);
  }
}
