/** DSA and ElGamal signatures on multi-precision integers. */
module Signatures {
  import opened MpInts
  import opened MpModular
  import opened MpMul
  import opened MpGcd
  import opened Rsa
  import NT = NumberTheory

  // -------------------------------------------------------------------- DSA

  /** A DSA key: alpha has order q modulo p, and key = alpha^x. */
  datatype DsaKey = DsaKey(p: int, q: int, alpha: nat, x: nat, key: int)
  {
    ghost predicate Valid()
    {
      p > 1 && NT.Prime(q) && NT.Cong(NT.Pow(alpha, q), 1, p) && key == ModExp(alpha, x, p)
    }
  }

  function DsaR(key: DsaKey, k: nat): int
    requires key.p > 0 && key.q > 0
  {
    ModExp(key.alpha, k, key.p) % key.q
  }

  function DsaS(key: DsaKey, m: int, r: int, kinv: int): int
    requires key.q > 0
  {
    (r * key.x + m) * kinv % key.q
  }

  function DsaV(key: DsaKey, m: int, r: int, sinv: int): int
    requires key.p > 0 && key.q > 0
    requires sinv * m % key.q >= 0 && r * sinv % key.q >= 0
  {
    ModExp(key.alpha, sinv * m % key.q, key.p) * ModExp(key.key, r * sinv % key.q, key.p) % key.p % key.q
  }

  /** u1 + x*u2 is k modulo the order: the exponent identity behind DSA. */
  lemma DsaExponents(m: int, x: int, r: int, k: int, kinv: int, s: int, sinv: int, q: int)
    requires q > 0 && NT.Cong(k * kinv, 1, q) && NT.Cong(s * sinv, 1, q)
    requires NT.Cong(s, (r * x + m) * kinv, q)
    ensures NT.Cong(sinv * m + x * (r * sinv), k, q)
  {
    var w := r * x + m;
    // w is k*s, so w*sinv is k
    NT.CongMul(k, k, s, w * kinv, q);
    NT.CongMul(k * kinv, 1, w, w, q);
    assert k * (w * kinv) == k * kinv * w by { Regroup(k, w, kinv); }
    NT.CongMul(k * s, w, sinv, sinv, q);
    NT.CongMul(s * sinv, 1, k, k, q);
    assert k * s * sinv == s * sinv * k by { Regroup(k, s, sinv); }
    Distribute(r, x, m, sinv);
  }

  lemma Regroup(a: int, b: int, c: int)
    ensures a * (b * c) == a * c * b && a * b * c == b * c * a
  {
    assert a * (b * c) == a * (c * b);
    assert a * (c * b) == a * c * b;
    assert a * b * c == a * (b * c);
  }

  lemma Distribute(r: int, x: int, m: int, s: int)
    ensures (r * x + m) * s == s * m + x * (r * s)
  {
    assert (r * x + m) * s == r * x * s + m * s;
    assert r * x * s == x * (r * s);
  }

  /** Powers of an element of order q depend on the exponent modulo q only. */
  lemma PowersModOrder(a: int, p: int, q: int, e: nat, f: nat)
    requires p > 0 && q > 0 && NT.Cong(NT.Pow(a, q), 1, p) && NT.Cong(e, f, q)
    ensures NT.Cong(NT.Pow(a, e), NT.Pow(a, f), p)
  {
    var k := NT.CongElim(e, f, q);
    if k >= 0 {
      PowersRepeat(a, p, q, f, k);
    } else {
      assert f == e + q * -k by { assert q * -k == -(q * k); }
      PowersRepeat(a, p, q, e, -k);
    }
  }

  /** alpha^u1 * (alpha^x)^u2 is alpha^k when u1 + x*u2 is k modulo the order. */
  lemma JointPower(a: nat, p: int, q: int, x: nat, y: int, u1: nat, u2: nat, k: nat)
    requires p > 1 && q > 0 && NT.Cong(NT.Pow(a, q), 1, p) && NT.Cong(y, NT.Pow(a, x), p)
    requires NT.Cong(u1 + x * u2, k, q)
    ensures NT.Cong(ModExp(a, u1, p) * ModExp(y, u2, p), NT.Pow(a, k), p)
  {
    ModExpCong(a, u1, p);
    ModExpCong(y, u2, p);
    NT.PowCong(y, NT.Pow(a, x), u2, p);
    NT.PowMul(a, x, u2);
    NT.MulMono(0, x, u2);
    NT.CongMul(ModExp(a, u1, p), NT.Pow(a, u1), ModExp(y, u2, p), NT.Pow(a, x * u2), p);
    NT.PowAdd(a, u1, x * u2);
    PowersModOrder(a, p, q, u1 + x * u2, k);
  }

  /** FIPS 186-4, sections 4.6 and 4.7: what signing makes is what verifying recomputes. */
  lemma DsaAccepts(key: DsaKey, m: int, k: nat, kinv: int, sinv: int)
    requires key.Valid() && NT.Cong(k * kinv, 1, key.q)
    requires var r := DsaR(key, k); NT.Cong(DsaS(key, m, r, kinv) * sinv, 1, key.q)
    ensures var r := DsaR(key, k);
      sinv * m % key.q >= 0 && r * sinv % key.q >= 0 && DsaV(key, m, r, sinv) == r
  {
    var p, q, x := key.p, key.q, key.x;
    var r := DsaR(key, k);
    var s := DsaS(key, m, r, kinv);
    NT.CongMod((r * x + m) * kinv, q);
    DsaExponents(m, x, r, k, kinv, s, sinv, q);
    var u1, u2 := sinv * m % q, r * sinv % q;
    NT.CongMod(sinv * m, q);
    NT.CongMod(r * sinv, q);
    NT.CongMul(x, x, u2, r * sinv, q);
    NT.CongAdd(u1, sinv * m, x * u2, x * (r * sinv), q);
    ModExpCong(key.alpha, x, p);
    JointPower(key.alpha, p, q, x, key.key, u1, u2, k);
    ModExpCong(key.alpha, k, p);
    NT.CongMod(ModExp(key.alpha, k, p), p);
  }

  // ---------------------------------------------------------------- ElGamal

  /** An ElGamal key: p is prime, alpha is not a multiple of it, and key = alpha^x. */
  datatype EgKey = EgKey(p: int, alpha: nat, x: nat, key: int)
  {
    ghost predicate Valid()
    {
      NT.Prime(p) && p > 2 && !NT.Divides(p, alpha) && key == ModExp(alpha, x, p)
    }
  }

  function EgR(key: EgKey, k: nat): int
    requires key.p > 0
  {
    ModExp(key.alpha, k, key.p)
  }

  function EgS(key: EgKey, m: int, r: int, kinv: int): int
    requires key.p > 1
  {
    kinv * (m - r * key.x % (key.p - 1)) % (key.p - 1)
  }

  /** The equation egverify tests. */
  predicate EgHolds(key: EgKey, m: nat, r: nat, s: nat)
    requires key.p > 0
  {
    ModExp(key.key, r, key.p) * ModExp(r, s, key.p) % key.p == ModExp(key.alpha, m, key.p)
  }

  lemma EgExponents(m: int, x: int, r: int, k: int, kinv: int, s: int, n: int)
    requires n > 0 && NT.Cong(k * kinv, 1, n)
    requires NT.Cong(s, kinv * (m - r * x % n), n)
    ensures NT.Cong(x * r + k * s, m, n)
  {
    var w := m - r * x % n;
    NT.CongMul(k, k, s, kinv * w, n);
    NT.CongMul(k * kinv, 1, w, w, n);
    assert k * (kinv * w) == k * kinv * w;
    NT.CongMod(r * x, n);
    NT.CongAdd(m, m, r * x % n, r * x, n);
    NT.CongAdd(x * r, x * r, k * s, m - r * x, n);
  }

  /** Every signature egsign makes is in range and satisfies the equation egverify tests. */
  lemma EgAccepts(key: EgKey, m: nat, k: nat, kinv: int)
    requires key.Valid() && k > 0 && NT.Cong(k * kinv, 1, key.p - 1)
    ensures var r := EgR(key, k);
      var s := EgS(key, m, r, kinv);
      1 <= r < key.p && s >= 0 && EgHolds(key, m, r, s)
  {
    var p, x, a := key.p, key.x, key.alpha;
    var n := p - 1;
    var r := EgR(key, k);
    var s := EgS(key, m, r, kinv);
    ModExpCong(a, k, p);
    RangeOfPower(a, k, p);
    NT.CongMod(kinv * (m - r * x % n), n);
    EgExponents(m, x, r, k, kinv, s, n);
    NT.Fermat(a, p);
    // key^r * r^s = alpha^(x*r) * (alpha^k)^s
    ModExpCong(a, x, p);
    ModExpCong(r, s, p);
    ModExpCong(key.key, r, p);
    NT.PowCong(key.key, NT.Pow(a, x), r, p);
    NT.PowMul(a, x, r);
    NT.PowCong(r, NT.Pow(a, k), s, p);
    NT.PowMul(a, k, s);
    NT.MulMono(0, x, r); NT.MulMono(0, k, s);
    NT.PowAdd(a, x * r, k * s);
    NT.CongMul(ModExp(key.key, r, p), NT.Pow(a, x * r), ModExp(r, s, p), NT.Pow(a, k * s), p);
    PowersModOrder(a, p, n, x * r + k * s, m);
    ModExpCong(a, m, p);
    NT.CongMod(ModExp(a, m, p), p);
  }

  /** A power of a number that p does not divide is not zero modulo p. */
  lemma {:induction false} RangeOfPower(a: nat, k: nat, p: int)
    requires NT.Prime(p) && !NT.Divides(p, a)
    ensures 1 <= ModExp(a, k, p) < p && !NT.Divides(p, NT.Pow(a, k))
  {
    if k == 0 {
      if NT.Divides(p, 1) { NT.DividesBound(p, 1); }
    } else {
      RangeOfPower(a, k - 1, p);
      if NT.Divides(p, NT.Pow(a, k)) {
        NT.PrimeDividesProduct(p, a, NT.Pow(a, k - 1));
        assert false;
      }
      NT.CongMod(NT.Pow(a, k), p);
    }
  }

  // ---------------------------------------------------------- the C routines

  /** k^-1 mod n, made positive: what the retry loop and the line after it leave. */
  method PositiveInverse(k: MpInt, n: MpInt) returns (ok: bool, kinv: MpInt)
    requires Plus(k) && Plus(n) && n.V() > 0
    ensures fresh(kinv) && fresh(kinv.p)
    ensures ok <==> NT.IsGcd(1, k.V(), n.V())
    ensures ok ==> Plus(kinv) && 0 <= kinv.V() < n.V() && NT.Cong(k.V() * kinv.V(), 1, n.V())
  {
    hide NT.IsGcd, NT.Cong;
    kinv := new MpInt(0);
    ok := SomeInverse(k, n, kinv);
    if ok {
      ghost var x, v, w := kinv.V(), k.V(), n.V();
      ModInPlace(kinv, n);
      ReducedInverse(v, x, w);
    }
  }

  lemma ReducedInverse(v: int, x: int, n: int)
    requires n > 0 && NT.Cong(v * x, 1, n)
    ensures NT.Cong(v * (x % n), 1, n) && 0 <= x % n < n
  {
    NT.CongMod(x, n);
    NT.CongMul(v, v, x % n, x, n);
  }

  /** mpextendedgcd(k, n, g, kinv, other) and the test g == 1; kinv may be negative. */
  method SomeInverse(k: MpInt, n: MpInt, kinv: MpInt) returns (ok: bool)
    requires Plus(k) && Plus(n) && n.V() > 0 && kinv.Shape() && Two(k, kinv) && Two(n, kinv)
    modifies kinv, kinv.p
    ensures kinv.Valid() && (kinv.p == old(kinv.p) || fresh(kinv.p)) && (kinv.top == 0 ==> kinv.sign == 1)
    ensures ok <==> NT.IsGcd(1, k.V(), n.V())
    ensures ok ==> NT.Cong(k.V() * kinv.V(), 1, n.V())
  {
    hide NT.IsGcd, NT.Cong, MpInt.Mag, MpInt.V;
    ghost var v, w := k.V(), n.V();
    SignOfValue(n);
    var g := new MpInt(0);
    var other := new MpInt(0);
    mpextendedgcd(k, n, g, kinv, other);
    ok := IsOne(g);
    InverseIfOne(g.V(), v, w, kinv.V(), other.V());
  }

  method IsOne(g: MpInt) returns (ok: bool)
    requires g.Valid()
    ensures ok <==> g.V() == 1
  {
    hide MpInt.Mag, MpInt.V;
    var one := new MpInt.OfDigit(1);
    var c := mpcmp(g, one);
    ok := c == 0;
  }

  lemma InverseIfOne(g: int, v: int, w: int, x: int, y: int)
    requires w > 0 && NT.IsGcd(g, v, w) && v * x + w * y == g
    ensures NT.IsGcd(1, v, w) <==> g == 1
    ensures g == 1 ==> NT.Cong(v * x, 1, w)
  {
    NotCoprime(g, v, w);
    if g == 1 { NT.CongIntro(v * x, 1, w, -y); }
  }

  /** (r*x + m)*kinv mod q */
  method SignedPart(r: MpInt, x: MpInt, m: MpInt, kinv: MpInt, q: MpInt) returns (s: MpInt)
    requires r.Valid() && x.Valid() && m.Valid() && kinv.Valid() && Plus(q) && q.V() > 0
    ensures fresh(s) && fresh(s.p) && Plus(s) && s.V() == (r.V() * x.V() + m.V()) * kinv.V() % q.V()
  {
    hide MpInt.Mag, MpInt.V;
    s := new MpInt(0);
    mpmul(r, x, s);
    mpadd(s, m, s);
    mpmul(s, kinv, s);
    ModInPlace(s, q);
  }

  ghost predicate HoldsDsa(dk: DsaKey, p: MpInt, q: MpInt, alpha: MpInt)
    reads p, p.p, q, q.p, alpha, alpha.p
  {
    Plus(p) && p.V() == dk.p && Plus(q) && q.V() == dk.q && Plus(alpha) && alpha.V() == dk.alpha && dk.p > 0 && dk.q > 0
  }

  /** alpha^k mod p mod q */
  method DsaFirst(p: MpInt, q: MpInt, alpha: MpInt, k: MpInt, ghost dk: DsaKey) returns (r: MpInt)
    requires HoldsDsa(dk, p, q, alpha) && Plus(k)
    ensures fresh(r) && fresh(r.p) && Plus(r) && k.V() >= 0 && r.V() == DsaR(dk, k.V())
  {
    hide ModExp;
    r := new MpInt(0);
    ExpMod(alpha, k, p, r);
    ModInPlace(r, q);
  }

  /** dsasign for a k that passed its loop; q has no inverse for k only if it is not prime. */
  method dsasign(p: MpInt, q: MpInt, alpha: MpInt, secret: MpInt, m: MpInt, k: MpInt, ghost dk: DsaKey)
      returns (r: MpInt, s: MpInt, ghost kinv: int)
    requires HoldsDsa(dk, p, q, alpha) && Plus(secret) && secret.V() == dk.x && m.Valid() && Plus(k) && 1 <= k.V() < dk.q
    requires NT.Prime(dk.q)
    ensures Plus(r) && Plus(s) && k.V() >= 0 && NT.Cong(k.V() * kinv, 1, dk.q)
    ensures r.V() == DsaR(dk, k.V()) && s.V() == DsaS(dk, m.V(), r.V(), kinv)
  {
    hide NT.IsGcd, NT.Prime, NT.Cong, MpInt.Mag, MpInt.V, DsaR;
    CoprimeBelow(k.V(), dk.q);
    var ok, inv := PositiveInverse(k, q);
    kinv := inv.V();
    r := DsaFirst(p, q, alpha, k, dk);
    s := SignedPart(r, secret, m, inv, q);
  }

  /** Below a prime every positive number is coprime to it. */
  lemma CoprimeBelow(k: int, q: int)
    requires NT.Prime(q) && 1 <= k < q
    ensures NT.IsGcd(1, k, q)
  {
    if NT.Divides(q, k) { NT.DividesBound(q, k); }
    var x, y := NT.PrimeGcd(q, k);
    NT.DividesIntro(1, k, k);
    NT.DividesIntro(1, q, q);
    NT.GcdFromCombination(1, k, q, x, y);
  }

  /** When dsaverify says yes, with sinv the inverse it found. */
  ghost predicate DsaVerifies(dk: DsaKey, r: int, s: int, m: int, sinv: int)
    requires dk.p > 0 && dk.q > 0
  {
    && 1 <= r < dk.q && 1 <= s < dk.q && NT.IsGcd(1, s, dk.q)
    && sinv * m % dk.q >= 0 && r * sinv % dk.q >= 0 && DsaV(dk, m, r, sinv) == r
  }

  /** u = x*y mod q as an exponent. */
  method ExponentOf(x: MpInt, y: MpInt, q: MpInt) returns (u: MpInt)
    requires x.Valid() && y.Valid() && Plus(q) && q.V() > 0
    ensures fresh(u) && fresh(u.p) && Plus(u) && u.V() == x.V() * y.V() % q.V() && u.V() >= 0
  {
    hide MpInt.Mag;
    u := new MpInt(0);
    mpmul(x, y, u);
    ModInPlace(u, q);
  }

  /** alpha^u1 * key^u2 mod p mod q */
  method JointValue(alpha: MpInt, u1: MpInt, key: MpInt, u2: MpInt, p: MpInt, q: MpInt) returns (v: MpInt)
    requires Plus(alpha) && Plus(u1) && Plus(key) && Plus(u2) && Plus(p) && Plus(q) && p.V() > 0 && q.V() > 0
    requires u1.V() >= 0 && u2.V() >= 0
    ensures fresh(v) && fresh(v.p) && Plus(v)
    ensures v.V() == ModExp(alpha.V(), u1.V(), p.V()) * ModExp(key.V(), u2.V(), p.V()) % p.V() % q.V()
  {
    hide ModExp, MpInt.Mag, MpInt.V;
    v := PowerProduct(alpha, u1, key, u2, p);
    ModInPlace(v, q);
  }

  /** mpmul(x, y, s); mpmod(s, n, s) */
  method MulMod(x: MpInt, y: MpInt, n: MpInt, s: MpInt)
    requires x.Valid() && y.Valid() && Plus(n) && n.V() > 0 && s.Shape() && Own(x, s) && Own(y, s) && Two(n, s)
    modifies s, s.p
    ensures Plus(s) && (s.p == old(s.p) || fresh(s.p)) && s.V() == old(x.V()) * old(y.V()) % n.V()
  {
    hide MpInt.Mag, MpInt.V;
    mpmul(x, y, s);
    ModInPlace(s, n);
  }

  /** b^e * c^f mod p, each power reduced first. */
  method PowerProduct(b: MpInt, e: MpInt, c: MpInt, f: MpInt, p: MpInt) returns (v: MpInt)
    requires Plus(b) && Plus(e) && Plus(c) && Plus(f) && Plus(p) && p.V() > 0 && e.V() >= 0 && f.V() >= 0
    ensures fresh(v) && fresh(v.p) && Plus(v)
    ensures v.V() == ModExp(b.V(), e.V(), p.V()) * ModExp(c.V(), f.V(), p.V()) % p.V()
  {
    hide ModExp, MpInt.Mag, MpInt.V;
    var t := PowerOf(b, e, p);
    v := PowerOf(c, f, p);
    MulMod(t, v, p, v);
  }

  method PowerOf(b: MpInt, e: MpInt, p: MpInt) returns (v: MpInt)
    requires Plus(b) && Plus(e) && Plus(p) && p.V() > 0 && e.V() >= 0
    ensures fresh(v) && fresh(v.p) && Plus(v) && v.V() == ModExp(b.V(), e.V(), p.V())
  {
    hide ModExp, MpInt.Mag, MpInt.V;
    v := new MpInt(0);
    ExpMod(b, e, p, v);
  }

  /** The range tests on a signature number: 1 <= x < n. */
  method InRange(x: MpInt, n: MpInt) returns (ok: bool)
    requires x.Valid() && Plus(n) && n.V() > 0
    ensures ok <==> 1 <= x.V() < n.V()
  {
    hide MpInt.Mag;
    var one := new MpInt.OfDigit(1);
    var c := mpcmp(x, one);
    if c < 0 { return false; }
    var d := mpcmp(x, n);
    ok := d < 0;
  }

  /** dsaverify: 0 exactly for a signature in range whose recomputed value is r. */
  method dsaverify(p: MpInt, q: MpInt, alpha: MpInt, key: MpInt, r: MpInt, s: MpInt, m: MpInt, ghost dk: DsaKey)
      returns (rv: int, ghost sinv: int)
    requires HoldsDsa(dk, p, q, alpha) && Plus(key) && key.V() == dk.key && r.Valid() && s.Valid() && m.Valid()
    ensures rv == 0 || rv == -1
    ensures rv == 0 <==> DsaVerifies(dk, r.V(), s.V(), m.V(), sinv)
    ensures 1 <= r.V() < dk.q && 1 <= s.V() < dk.q && NT.IsGcd(1, s.V(), dk.q) ==> NT.Cong(s.V() * sinv, 1, dk.q)
  {
    hide NT.IsGcd, NT.Cong, ModExp, MpInt.Mag;
    rv, sinv := -1, 0;
    var ok := InRange(r, q);
    if !ok { return; }
    ok := InRange(s, q);
    if !ok { return; }
    var inv := new MpInt(0);
    ok := SomeInverse(s, q, inv);
    if !ok { return; }
    sinv := inv.V();
    var good := DsaCheck(p, q, alpha, key, r, m, inv, dk);
    if good { rv := 0; }
  }

  method DsaCheck(p: MpInt, q: MpInt, alpha: MpInt, key: MpInt, r: MpInt, m: MpInt, inv: MpInt, ghost dk: DsaKey)
      returns (good: bool)
    requires HoldsDsa(dk, p, q, alpha) && Plus(key) && key.V() == dk.key && Plus(r) && m.Valid() && inv.Valid()
    requires r.V() > 0
    ensures inv.V() * m.V() % dk.q >= 0 && r.V() * inv.V() % dk.q >= 0
    ensures good <==> DsaV(dk, m.V(), r.V(), inv.V()) == r.V()
  {
    hide ModExp, MpInt.Mag, MpInt.V;
    var u1 := ExponentOf(inv, m, q);
    var u2 := ExponentOf(r, inv, q);
    var v := JointValue(alpha, u1, key, u2, p, q);
    var c := mpcmp(v, r);
    good := c == 0;
  }

  /** Every signature dsasign makes with r and s not zero is accepted, whatever inverse verification finds. */
  lemma DsaSignThenVerify(dk: DsaKey, m: int, k: nat, kinv: int, sinv: int)
    requires dk.Valid() && dk.q > 0 && NT.Cong(k * kinv, 1, dk.q)
    requires var r := DsaR(dk, k);
      var s := DsaS(dk, m, r, kinv);
      r != 0 && s != 0 && NT.Cong(s * sinv, 1, dk.q)
    ensures var r := DsaR(dk, k);
      DsaVerifies(dk, r, DsaS(dk, m, r, kinv), m, sinv)
  {
    var r := DsaR(dk, k);
    var s := DsaS(dk, m, r, kinv);
    NT.CongMod(ModExp(dk.alpha, k, dk.p), dk.q);
    NT.CongMod((r * dk.x + m) * kinv, dk.q);
    CoprimeBelow(s, dk.q);
    DsaAccepts(dk, m, k, kinv, sinv);
  }

  ghost predicate HoldsEg(ek: EgKey, p: MpInt, alpha: MpInt)
    reads p, p.p, alpha, alpha.p
  {
    Plus(p) && p.V() == ek.p && Plus(alpha) && alpha.V() == ek.alpha && ek.p > 1
  }

  /** egsign for a k with an inverse modulo p-1, as its loop leaves it. */
  method egsign(p: MpInt, alpha: MpInt, secret: MpInt, m: MpInt, k: MpInt, ghost ek: EgKey)
      returns (r: MpInt, s: MpInt, ghost kinv: int)
    requires HoldsEg(ek, p, alpha) && Plus(secret) && secret.V() == ek.x && m.Valid() && Plus(k) && 1 <= k.V() < ek.p - 1
    requires NT.IsGcd(1, k.V(), ek.p - 1)
    ensures Plus(r) && Plus(s) && k.V() >= 0 && NT.Cong(k.V() * kinv, 1, ek.p - 1)
    ensures r.V() == EgR(ek, k.V()) && s.V() == EgS(ek, m.V(), r.V(), kinv)
  {
    hide NT.IsGcd, NT.Cong, ModExp, MpInt.Mag, MpInt.V;
    var pm1 := Predecessor(p);
    var ok, inv := PositiveInverse(k, pm1);
    kinv := inv.V();
    r := new MpInt(0);
    ExpMod(alpha, k, p, r);
    s := EgPart(r, secret, m, inv, pm1);
  }

  method Predecessor(p: MpInt) returns (pm1: MpInt)
    requires Plus(p) && p.V() > 1
    ensures fresh(pm1) && fresh(pm1.p) && Plus(pm1) && pm1.V() == p.V() - 1
  {
    hide MpInt.Mag;
    var one := new MpInt.OfDigit(1);
    pm1 := new MpInt(0);
    mpsub(p, one, pm1);
  }

  /** kinv*(m - secret*r mod n) mod n */
  method EgPart(r: MpInt, secret: MpInt, m: MpInt, kinv: MpInt, n: MpInt) returns (s: MpInt)
    requires r.Valid() && secret.Valid() && m.Valid() && kinv.Valid() && Plus(n) && n.V() > 0
    ensures fresh(s) && fresh(s.p) && Plus(s)
    ensures s.V() == kinv.V() * (m.V() - r.V() * secret.V() % n.V()) % n.V()
  {
    hide MpInt.Mag, MpInt.V;
    s := new MpInt(0);
    SwapProduct(secret.V(), r.V());
    MulMod(secret, r, n, s);
    mpsub(m, s, s);
    MulMod(kinv, s, n, s);
  }

  lemma SwapProduct(x: int, y: int)
    ensures x * y == y * x
  {
  }

  /** egverify: 0 exactly when r is in range and the equation holds. */
  method egverify(p: MpInt, alpha: MpInt, key: MpInt, r: MpInt, s: MpInt, m: MpInt, ghost ek: EgKey) returns (rv: int)
    requires HoldsEg(ek, p, alpha) && Plus(key) && key.V() == ek.key && Plus(r) && Plus(s) && Plus(m)
    ensures r.V() >= 0 && s.V() >= 0 && m.V() >= 0 && (rv == 0 || rv == -1)
    ensures rv == 0 <==> 1 <= r.V() < ek.p && EgHolds(ek, m.V(), r.V(), s.V())
  {
    hide ModExp, MpInt.Mag, EgHolds;
    var ok := InRange(r, p);
    if !ok { return -1; }
    var good := EgCheck(p, alpha, key, r, s, m, ek);
    rv := if good then 0 else -1;
  }

  method EgCheck(p: MpInt, alpha: MpInt, key: MpInt, r: MpInt, s: MpInt, m: MpInt, ghost ek: EgKey) returns (good: bool)
    requires HoldsEg(ek, p, alpha) && Plus(key) && key.V() == ek.key && Plus(r) && Plus(s) && Plus(m)
    ensures r.V() >= 0 && s.V() >= 0 && m.V() >= 0
    ensures good <==> EgHolds(ek, m.V(), r.V(), s.V())
  {
    hide ModExp, MpInt.Mag, MpInt.V;
    PlusValue(r); PlusValue(s); PlusValue(m);
    var v1 := PowerProduct(key, r, r, s, p);
    var v2 := PowerOf(alpha, m, p);
    var c := mpcmp(v1, v2);
    good := c == 0;
  }
}
