/** Remainders and modular powers of multi-precision integers. */
module MpModular {
  import opened Digits
  import opened MpInts
  import opened MpShift
  import opened MpDiv
  import opened MpMul
  import NT = NumberTheory

  // ------------------------------------------------------------------- mpmod

  /** What mpmod leaves: r is |b| mod |m|, minus says that mpdiv left a minus sign on it. */
  function ModResult(r: int, minus: bool, m: int, remainderIsM: bool): int
  {
    if !minus then r else if remainderIsM then -2 * r else m - r
  }

  /** mpdiv drops the sign of a zero remainder only when it overwrites the dividend itself. */
  method mpmod(b: MpInt, m: MpInt, remainder: MpInt)
    requires b.Valid() && m.Valid() && m.top != 0
    requires remainder.Shape() && Own(b, remainder) && Own(m, remainder)
    modifies remainder, remainder.p
    ensures remainder.Valid() && (remainder.p == old(remainder.p) || fresh(remainder.p))
    ensures var r := old(b.Mag()) % old(m.Mag());
      remainder.V() == ModResult(r, old(b.sign) < 0 && !(r == 0 && remainder == b && old(b.Mag() >= m.Mag())),
                                 old(m.V()), remainder == m)
    ensures old(b.sign) == 1 ==> remainder.sign == 1
    ensures remainder.top == 0 && remainder != m ==> remainder.sign == 1
  {
    hide Val;
    MagIsZero(m);
    NT.CongMod(b.Mag(), m.Mag());
    mpdiv(b, m, null, remainder);
    if remainder.sign < 0 {
      mpadd(m, remainder, remainder);
      MagIsZero(remainder);
    }
  }

  /** The result is congruent to b, and within [0, m) unless a negative b reached it through a second number. */
  lemma ModResultIsMod(b: int, mag: int, m: int, minus: bool, remainderIsM: bool)
    requires m > 0 && mag >= 0 && (b == mag || b == -mag) && (b > 0 ==> !minus)
    requires b < 0 && mag % m != 0 ==> minus
    ensures var w := ModResult(mag % m, minus, m, remainderIsM);
      && (!remainderIsM || !minus ==> NT.Cong(w, b, m) && 0 <= w <= m && (w == m <==> minus && mag % m == 0))
      && (remainderIsM && minus && mag % m != 0 ==> w < 0)
  {
    var r := mag % m;
    NT.CongMod(mag, m);
    if minus {
      NT.CongAdd(0, 0, r, mag, m);
      NT.CongIntro(m - r, -r, m, 1);
    }
    if b != mag {
      NT.CongAdd(0, 0, r, mag, m);
      if r == 0 { NT.CongIntro(m, 0, m, 1); }
    }
  }

  /** mpmod into a third number. */
  method ModInto(b: MpInt, m: MpInt, r: MpInt)
    requires b.Valid() && m.Valid() && m.V() > 0 && r.Shape() && r != b && r != m && r.p != b.p && r.p != m.p
    modifies r, r.p
    ensures r.Valid() && (r.p == old(r.p) || fresh(r.p))
    ensures NT.Cong(r.V(), b.V(), m.V()) && 0 <= r.V() <= m.V()
    ensures b.sign == 1 ==> r.V() == b.V() % m.V() && r.sign == 1
    ensures r.V() == m.V() <==> b.sign < 0 && b.V() % m.V() == 0
  {
    hide Val;
    MagIsZero(m);
    ghost var x := b.V() % m.V();
    ModResultIsMod(b.V(), b.Mag(), m.V(), b.sign < 0, false);
    NT.CongMod(b.Mag(), m.V());
    NegMultiple(b.Mag(), m.V());
    mpmod(b, m, r);
  }

  lemma NegMultiple(x: int, m: int)
    requires m > 0
    ensures (-x) % m == 0 <==> x % m == 0
  {
    if x % m == 0 { NT.CongAdd(0, 0, x, 0, m); }
    if (-x) % m == 0 { NT.CongAdd(0, 0, -x, 0, m); }
  }

  /** mpmod in place: always the least non-negative residue, unless b is a minus zero. */
  method ModInPlace(b: MpInt, m: MpInt)
    requires b.Valid() && m.Valid() && m.V() > 0 && b != m && b.p != m.p
    requires b.top == 0 ==> b.sign == 1
    modifies b, b.p
    ensures b.Valid() && (b.p == old(b.p) || fresh(b.p))
    ensures b.V() == old(b.V()) % m.V() && b.sign == 1
  {
    hide Val;
    MagIsZero(m); MagIsZero(b);
    ghost var r := b.Mag() % m.V();
    ghost var minus := b.sign < 0 && !(r == 0 && b.Mag() >= m.Mag());
    NT.CongMod(b.Mag(), m.V());
    ModResultIsMod(b.V(), b.Mag(), m.V(), minus, false);
    mpmod(b, m, b);
    MagIsZero(b);
    NT.CongMod(b.V(), m.V());
  }

  // ------------------------------------------------------------------- mpexp

  /** x and y are equal, or congruent when there is a modulus. */
  ghost predicate Same(x: int, y: int, m: int)
  {
    if m == 0 then x == y else m > 0 && NT.Cong(x, y, m)
  }

  lemma SameMul(x: int, x': int, y: int, y': int, m: int)
    requires Same(x, x', m) && Same(y, y', m)
    ensures Same(x * y, x' * y', m)
  {
    if m != 0 { NT.CongMul(x, x', y, y', m); }
  }

  /** One bit of the exponent: q doubles, and a set bit multiplies by b once more. */
  lemma ExpStep(x: int, b: int, q: nat, m: int)
    requires Same(x, NT.Pow(b, q), m)
    ensures Same(x * x, NT.Pow(b, 2 * q), m)
    ensures Same(x * x * b, NT.Pow(b, 2 * q + 1), m)
  {
    SameMul(x, NT.Pow(b, q), x, NT.Pow(b, q), m);
    NT.PowAdd(b, q, q);
    assert q + q == 2 * q;
    SameMul(x * x, NT.Pow(b, 2 * q), b, b, m);
    assert NT.Pow(b, 2 * q + 1) == b * NT.Pow(b, 2 * q);
  }

  /** Bit k of digit i of a number, when all higher bits make q. */
  lemma NextBit(E: seq<Digit>, i: nat, k: nat)
    requires i < |E| && k < 32
    ensures var n := 32 * i + k;
      Val(E) / Pow2(n) == 2 * (Val(E) / Pow2(n + 1)) + E[i] / Pow2(k) % 2
  {
    hide Val, Pow2;
    var n := 32 * i + k;
    HighBits(E, i, k);
    HighBits(E, i, k + 1);
    HalveAgain32(E[i], k);
    var rest := Val(E[i+1..]);
    var c, c2 := Pow2(32 - k), Pow2(32 - (k + 1));
    assert c == 2 * c2 by { Pow2Double(32 - (k + 1)); assert 32 - (k + 1) + 1 == 32 - k; }
    assert rest * c == 2 * (rest * c2);
  }

  lemma Pow2Double(n: nat)
    ensures Pow2(n + 1) == 2 * Pow2(n)
  {
  }

  lemma HalveAgain32(d: Digit, k: nat)
    ensures d / Pow2(k) == 2 * (d / Pow2(k + 1)) + d / Pow2(k) % 2
  {
    HalveAgain(d, k);
  }

  /** Shifting right by i digits and k <= 32 bits leaves digit i's high bits below the higher digits. */
  lemma HighBits(E: seq<Digit>, i: nat, k: nat)
    requires i < |E| && k <= 32
    ensures Val(E) / Pow2(32 * i + k) == E[i] / Pow2(k) + Val(E[i+1..]) * Pow2(32 - k)
  {
    hide Val, Pow2;
    var p, c := Pow2(k), Pow2(32 - k);
    var d, rest := E[i], Val(E[i+1..]);
    assert E[i..] == [d] + E[i+1..];
    ValPrepend(d, E[i+1..]);
    WordSplit(k);
    DivBounds(d, p);
    assert p * (d / p + rest * c) + d % p == d + BASE * rest by {
      assert p * (rest * c) == p * c * rest;
      assert p * (d / p + rest * c) == p * (d / p) + p * (rest * c);
    }
    RightFinish(E, i, k, d / p + rest * c, d % p);
  }

  /** The part of the exponent above the lowest `bits` bits of digit i. */
  function ReadSoFar(E: seq<Digit>, i: nat, bits: nat): int
  {
    Val(E) / Pow2(32 * i + bits)
  }

  lemma ReadNext(E: seq<Digit>, i: nat, k: nat)
    requires i < |E| && k < 32
    ensures ReadSoFar(E, i, k + 1) >= 0
    ensures ReadSoFar(E, i, k) == 2 * ReadSoFar(E, i, k + 1) + Shr(E[i], k) % 2
  {
    hide Val, Pow2;
    NextBit(E, i, k);
    DivBounds(Val(E), Pow2(32 * i + (k + 1)));
    assert 32 * i + k + 1 == 32 * i + (k + 1);
  }

  lemma ReadDigit(E: seq<Digit>, i: nat)
    requires i >= 1
    ensures ReadSoFar(E, i, 0) == ReadSoFar(E, i - 1, 32)
  {
    assert 32 * i + 0 == 32 * (i - 1) + 32;
  }

  lemma ReadAll(E: seq<Digit>)
    ensures ReadSoFar(E, 0, 0) == Val(E)
  {
    hide Val;
    Pow2Zero();
    DivUnique(Val(E), 1, Val(E), 0);
  }

  lemma ReadTop(E: seq<Digit>, k: nat)
    requires |E| > 0 && k < 32 && E[|E|-1] / Pow2(k) == 1
    ensures ReadSoFar(E, |E| - 1, k) == 1
  {
    hide Val, Pow2;
    HighBits(E, |E| - 1, k);
    assert E[|E|-1+1..] == [];
    ValEmpty();
  }

  /** "skip first bit": the position of the highest set bit of a non-zero digit. */
  method HighestBit(d: Digit) returns (k: nat)
    requires d != 0
    ensures k < 32 && d / Pow2(k) == 1
  {
    hide Pow2;
    k := 31;
    Pow2Word();
    DivUnique(d, BASE, 0, d);
    Pow2Double(31);
    assert d / Pow2(k + 1) == 0;
    while d / Pow2(k) % 2 == 0
      invariant k < 32 && d / Pow2(k + 1) == 0
      decreases k
    {
      HalveAgain(d, k);
      if k == 0 {
        Pow2Zero();
        DivUnique(d, 1, d, 0);
        assert false;
      }
      k := k - 1;
    }
    HalveAgain(d, k);
  }

  /** Squares cur, and for a set bit multiplies by b; the result says whether other holds the value. */
  method SquareStep(cur: MpInt, other: MpInt, b: MpInt, bit: bool) returns (swapped: bool)
    requires cur.Valid() && other.Shape() && b.Valid()
    requires cur != other && b != cur && b != other && cur.p != other.p && b.p != cur.p && b.p != other.p
    modifies cur, cur.p, other, other.p
    ensures swapped == !bit && cur.Shape() && other.Shape() && cur.p != other.p
    ensures cur.p == old(cur.p) || fresh(cur.p)
    ensures other.p == old(other.p) || fresh(other.p)
    ensures var t := if swapped then other else cur;
      && t.Valid() && t.V() == (if bit then old(cur.V()) * old(cur.V()) * b.V() else old(cur.V()) * old(cur.V()))
      && (old(cur.sign) == 1 && b.sign == 1 ==> t.sign == 1)
  {
    hide Val;
    MagIsZero(cur); MagIsZero(b);
    SignOfProduct(cur.V(), cur.V());
    mpmul(cur, cur, other);
    MagIsZero(other);
    swapped := !bit;
    if bit {
      SignOfProduct(other.V(), b.V());
      mpmul(other, b, cur);
      MagIsZero(cur);
    }
  }

  /** Reduces t through o, but only when it has more digits than the modulus. */
  method ReduceLong(t: MpInt, o: MpInt, m: MpInt?, ghost vm: int) returns (moved: bool)
    requires t.Valid() && o.Shape() && t != o && t.p != o.p
    requires if m == null then vm == 0 else m.Valid() && m.V() == vm > 0 && Separate(m, t, o)
    modifies o, o.p
    ensures t.Valid() && o.Shape() && o.p != t.p && (o.p == old(o.p) || fresh(o.p))
    ensures var r := if moved then o else t;
      r.Valid() && Same(r.V(), t.V(), vm) && (t.sign == 1 ==> r.sign == 1)
  {
    hide Val;
    moved := m != null && t.top > m.top;
    if moved {
      ModInto(t, m, o);
    }
  }

  lemma SignOfProduct(x: int, y: int)
    ensures x >= 0 && y >= 0 ==> x * y >= 0
  {
  }

  /** The objects the bit loop works on: two buffers, and inputs that are neither. */
  ghost predicate Separate(x: MpInt, t: MpInt, res: MpInt)
    reads x, t, res
  {
    x != t && x != res && x.p != t.p && x.p != res.p
  }

  /** One turn of the bit loop; q is the exponent read so far. */
  method OneBit(t: MpInt, o: MpInt, b: MpInt, m: MpInt?, bit: bool, ghost q: nat, ghost vb: int, ghost vm: int)
      returns (cur: MpInt, other: MpInt)
    requires t.Valid() && o.Shape() && t != o && t.p != o.p && b.Valid() && b.V() == vb && Separate(b, t, o)
    requires if m == null then vm == 0 else m.Valid() && m.V() == vm > 0 && Separate(m, t, o)
    requires Same(t.V(), NT.Pow(vb, q), vm)
    modifies t, t.p, o, o.p
    ensures (cur == t && other == o) || (cur == o && other == t)
    ensures cur.Valid() && other.Shape() && cur.p != other.p
    ensures t.p == old(t.p) || fresh(t.p)
    ensures o.p == old(o.p) || fresh(o.p)
    ensures Same(cur.V(), NT.Pow(vb, 2 * q + if bit then 1 else 0), vm)
    ensures old(t.sign) == 1 && b.sign == 1 ==> cur.sign == 1
  {
    hide Val, NT.Pow;
    ExpStep(t.V(), vb, q, vm);
    var swapped := SquareStep(t, o, b, bit);
    cur, other := t, o;
    if swapped { cur, other := other, cur; }
    ghost var x := cur.V();
    var moved := ReduceLong(cur, other, m, vm);
    if moved { cur, other := other, cur; }
    SameTrans(cur.V(), x, NT.Pow(vb, 2 * q + if bit then 1 else 0), vm);
  }

  lemma SameTrans(x: int, y: int, z: int, m: int)
    requires Same(x, y, m) && Same(y, z, m)
    ensures Same(x, z, m)
  {
  }

  /** The bit loop: every bit of e below the highest one, from the buffer t that holds b. */
  method BitLoop(t: MpInt, res: MpInt, b: MpInt, e: MpInt, m: MpInt?) returns (cur: MpInt, other: MpInt)
    requires t.Valid() && res.Shape() && t != res && t.p != res.p
    requires b.Valid() && e.Valid() && e.top > 0 && Separate(b, t, res) && Separate(e, t, res)
    requires m != null ==> m.Valid() && m.V() > 0 && Separate(m, t, res)
    requires t.V() == b.V() && t.sign == b.sign
    modifies t, t.p, res, res.p
    ensures (cur == t && other == res) || (cur == res && other == t)
    ensures cur.Valid() && other.Shape() && cur.p != other.p
    ensures t.p == old(t.p) || fresh(t.p)
    ensures res.p == old(res.p) || fresh(res.p)
    ensures Same(cur.V(), NT.Pow(b.V(), e.Mag()), if m == null then 0 else m.V())
    ensures b.sign == 1 ==> cur.sign == 1
  {
    hide Val, Pow2, NT.Pow, ReadSoFar, Same;
    ghost var vb, vm, E := b.V(), if m == null then 0 else m.V(), e.p[..e.top];
    cur, other := t, res;
    var i := e.top - 1;
    var d := e.p[i];
    var bits := HighestBit(d);        // bits still to come in digit i
    ReadTop(E, bits);
    PowFirst(vb, vm);
    while !(i == 0 && bits == 0)
      invariant 0 <= i < e.top && 0 <= bits <= 32 && d == E[i] && e.p[..e.top] == E
      invariant (cur == t && other == res) || (cur == res && other == t)
      invariant cur.Valid() && other.Shape() && cur.p != other.p
      invariant t.p == old(t.p) || fresh(t.p)
      invariant res.p == old(res.p) || fresh(res.p)
      invariant ReadSoFar(E, i, bits) >= 0 && Same(cur.V(), NT.Pow(vb, ReadSoFar(E, i, bits)), vm)
      invariant b.sign == 1 ==> cur.sign == 1
      decreases i, bits
    {
      if bits > 0 {
        bits := bits - 1;
        ReadNext(E, i, bits);
        var bit := Shr(d, bits) % 2 == 1;
        cur, other := OneBit(cur, other, b, m, bit, ReadSoFar(E, i, bits + 1), vb, vm);
      } else {
        ReadDigit(E, i);
        i := i - 1;
        bits := 32;
        d := e.p[i];
      }
    }
    ReadAll(E);
  }

  lemma PowFirst(b: int, m: int)
    requires m >= 0
    ensures Same(b, NT.Pow(b, 1), m)
  {
    assert NT.Pow(b, 1) == b * NT.Pow(b, 0);
  }

  /** What mpexp promises for a positive exponent: the power y, reduced when there is a modulus. */
  ghost predicate IsPower(r: int, y: int, m: int, plus: bool)
  {
    if m == 0 then r == y else m > 0 && 0 <= r <= m && NT.Cong(r, y, m) && (plus ==> r == y % m)
  }

  /** The final reduction and the move of the value into res. */
  method Finish(cur: MpInt, other: MpInt, res: MpInt, m: MpInt?, ghost y: int)
    requires cur.Valid() && other.Shape() && cur != other && cur.p != other.p && (res == cur || res == other)
    requires m != null ==> m.Valid() && m.V() > 0 && Separate(m, cur, other)
    requires Same(cur.V(), y, if m == null then 0 else m.V())
    modifies cur, cur.p, other, other.p
    ensures res.Valid() && (res.p == old(res.p) || fresh(res.p))
    ensures IsPower(res.V(), y, if m == null then 0 else m.V(), old(cur.sign) == 1)
    ensures m != null && old(cur.sign) == 1 ==> res.sign == 1
  {
    hide Val;
    if m != null {
      ModInto(cur, m, other);
      if other != res { mpassign(other, res); }
    } else {
      if cur != res { mpassign(cur, res); }
    }
  }

  /** mpexp once no input is the result's object and t holds a copy of b. */
  method PowerInto(t: MpInt, res: MpInt, b: MpInt, e: MpInt, m: MpInt?)
    requires t.Valid() && res.Shape() && t != res && t.p != res.p
    requires b.Valid() && e.Valid() && e.top > 0 && Separate(b, t, res) && Separate(e, t, res)
    requires m != null ==> m.Valid() && m.V() > 0 && Separate(m, t, res)
    requires t.V() == b.V() && t.sign == b.sign
    modifies t, t.p, res, res.p
    ensures res.Valid() && (res.p == old(res.p) || fresh(res.p))
    ensures IsPower(res.V(), NT.Pow(b.V(), e.Mag()), if m == null then 0 else m.V(), b.sign == 1)
    ensures m != null && b.sign == 1 ==> res.sign == 1
  {
    hide Val, Pow2, NT.Pow, NT.Cong, Same;
    var cur, other := BitLoop(t, res, b, e, m);
    Finish(cur, other, res, m, NT.Pow(b.V(), e.Mag()));
  }

  /** b to the e, modulo m when m is not nil; res may be any of the inputs.  e = 0 gives 1 whatever m is. */
  method mpexp(b0: MpInt, e0: MpInt, m0: MpInt?, res: MpInt)
    requires b0.Valid() && e0.Valid() && e0.sign == 1
    requires m0 != null ==> m0.Valid() && m0.V() > 0 && Own(m0, res)
    requires res.Shape() && Own(b0, res) && Own(e0, res)
    modifies res, res.p
    ensures res.Valid() && (res.p == old(res.p) || fresh(res.p))
    ensures old(e0.V()) == 0 ==> res.V() == 1
    ensures old(e0.V()) > 0 ==>
      IsPower(res.V(), NT.Pow(old(b0.V()), old(e0.V())), if m0 == null then 0 else old(m0.V()), old(b0.sign) == 1)
    ensures m0 != null && old(b0.sign) == 1 ==> res.sign == 1
  {
    hide Val, Pow2, NT.Pow, NT.Cong, IsPower, Same;
    MagIsZero(e0);
    if e0.top == 0 {
      var one := new MpInt.OfDigit(1);
      mpassign(one, res);
      return;
    }
    var t, b, e, m := Copies(b0, e0, m0, res);
    PowerInto(t, res, b, e, m);
  }

  /** The working copy of b, and copies of the inputs that share the result's object. */
  method Copies(b0: MpInt, e0: MpInt, m0: MpInt?, res: MpInt) returns (t: MpInt, b: MpInt, e: MpInt, m: MpInt?)
    requires b0.Valid() && e0.Valid() && Own(b0, res) && Own(e0, res)
    requires m0 != null ==> m0.Valid() && Own(m0, res)
    ensures fresh(t) && fresh(t.p) && t.Valid() && t.V() == b0.V() && t.sign == b0.sign
    ensures b.Valid() && Separate(b, t, res) && b.V() == b0.V() && b.sign == b0.sign
    ensures e.Valid() && Separate(e, t, res) && e.V() == e0.V() && e.sign == e0.sign && e.top == e0.top
    ensures (m == null) == (m0 == null)
    ensures m != null ==> m.Valid() && Separate(m, t, res) && m.V() == m0.V()
  {
    hide Val;
    b := CopyIf(b0, res);
    e := CopyIf(e0, res);
    m := m0;
    if m0 != null { m := CopyIf(m0, res); }
    t := mpcopy(b0);
  }

  /** An input that shares the result's object is copied first. */
  method CopyIf(x: MpInt, res: MpInt) returns (r: MpInt)
    requires x.Valid() && Own(x, res)
    ensures r.Valid() && r.V() == x.V() && r.sign == x.sign && r.top == x.top && r != res && r.p != res.p
    ensures r == x || (fresh(r) && fresh(r.p))
  {
    hide Val;
    r := x;
    if x == res { r := mpcopy(x); }
  }
}
