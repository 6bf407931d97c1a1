/** Multi-precision integers: a sign and a digit buffer that the operations resize and overwrite. */
module MpInts {
  import opened Digits
  import opened MpVec

  const DBITS := 32
  const MINDIGITS := 33

  /** DIGITS(x) of dat.h, for the bit counts it is used with. */
  function DigitsFor(bits: int): (n: nat)
    ensures bits <= n * DBITS
  {
    if bits <= 0 then 0 else (DBITS - 1 + bits) / DBITS
  }

  class MpInt {
    var sign: int
    var top: nat
    var p: array<Digit>

    /** Sign is one of the two values and the top digits are allocated. */
    ghost predicate Shape()
      reads this
    {
      (sign == 1 || sign == -1) && top <= p.Length
    }

    /** Shape, and no leading zero digit; a zero may still carry a minus sign. */
    ghost predicate Valid()
      reads this, p
    {
      Shape() && (top > 0 ==> p[top-1] != 0)
    }

    /** No minus zero, and the lowest digit, which iseven reads without looking at top, is right for a zero. */
    ghost predicate Clean()
      reads this, p
    {
      p.Length > 0 && (top == 0 ==> sign == 1 && p[0] == 0)
    }

    ghost function Mag(): (m: int)
      requires Shape()
      reads this, p
      ensures m >= 0
    {
      Val(p[..top])
    }

    /** The integer this object stands for. */
    ghost function V(): int
      requires Shape()
      reads this, p
    {
      if sign < 0 then -Mag() else Mag()
    }

    /** mpnew */
    constructor (bits: nat)
      ensures Valid() && V() == 0 && sign == 1 && top == 0 && fresh(p)
      ensures p.Length == if DigitsFor(bits) < MINDIGITS then MINDIGITS else DigitsFor(bits)
      ensures forall k :: 0 <= k < p.Length ==> p[k] == 0
    {
      var n := DigitsFor(bits);
      if n < MINDIGITS { n := MINDIGITS; }
      p := new Digit[n](_ => 0);
      sign := 1;
      top := 0;
    }

    /** A one-digit number: mpzero, mpone and the like, and uitomp with a nil destination. */
    constructor OfDigit(d: Digit)
      ensures Valid() && Clean() && V() == d && sign == 1 && fresh(p) && top == if d == 0 then 0 else 1
    {
      p := new Digit[MINDIGITS](_ => 0);
      sign := 1;
      top := if d == 0 then 0 else 1;
      new;
      p[0] := d;
      assert d != 0 ==> p[..top] == [d];
      ValOne(d);
    }
  }

  /** Different objects own different buffers. */
  ghost predicate Own(a: MpInt, b: MpInt)
    reads a, b
  {
    a == b || a.p != b.p
  }

  method mpbits(b: MpInt, bits: int)
    requires b.Shape()
    modifies b, b.p
    ensures b.Shape() && b.sign == old(b.sign)
    ensures b.p == old(b.p) || fresh(b.p)
    ensures b.top == if old(b.top) >= DigitsFor(bits) then old(b.top) else DigitsFor(bits)
    ensures b.p[..old(b.top)] == old(b.p[..b.top])
    ensures forall k :: old(b.top) <= k < b.top ==> b.p[k] == 0
    ensures b.Mag() == old(b.Mag())
    ensures b.p.Length >= old(b.p.Length)
    ensures old(b.top) >= DigitsFor(bits) ==> b.p == old(b.p) && b.p[..] == old(b.p[..])
  {
    hide Val;
    var n := DigitsFor(bits);
    if b.p.Length >= n {
      if b.top >= n { return; }
      forall k | b.top <= k < n { b.p[k] := 0; }
    } else {
      var q := new Digit[n];
      forall k | 0 <= k < n { q[k] := if k < b.top then b.p[k] else 0; }
      assert q[..b.top] == b.p[..b.top];
      b.p := q;
    }
    ghost var t := b.top;
    b.top := n;
    assert b.p[..n][..t] == b.p[..t];
    ValTrim(b.p[..n], t);
  }

  method mpnorm(b: MpInt)
    requires b.Shape()
    modifies b`top, b`sign
    ensures b.Valid() && b.Mag() == old(b.Mag())
    ensures b.sign == if b.top == 0 then 1 else old(b.sign)
    ensures forall k :: b.top <= k < old(b.top) ==> b.p[k] == 0
  {
    hide Val;
    var i := b.top;
    while i > 0 && b.p[i-1] == 0
      invariant 0 <= i <= b.top
      invariant forall k :: i <= k < b.top ==> b.p[k] == 0
    {
      i := i - 1;
    }
    ValTrim(b.p[..b.top], i);
    assert b.p[..b.top][..i] == b.p[..i];
    b.top := i;
    if b.top == 0 { b.sign := 1; }
  }

  method mpassign(o: MpInt, n: MpInt)
    requires o.Valid() && n.Shape() && Own(o, n)
    modifies n, n.p
    ensures n.Valid() && n.V() == old(o.V()) && n.Mag() == old(o.Mag()) && n.sign == old(o.sign) && n.top == old(o.top)
    ensures n.p == old(n.p) || fresh(n.p)
    ensures n.p.Length >= old(n.p.Length)
    ensures old(o.top > 0 || (o.sign == 1 && n.top == 0 && n.Clean())) ==> n.Clean()
    ensures old(o.top) == 0 ==> n.p == old(n.p) && n.p[..] == old(n.p[..])
  {
    hide Val;
    ghost var D := o.p[..o.top];
    ghost var t := o.top;
    mpbits(n, DBITS * o.top);
    assert DigitsFor(DBITS * t) == t;
    assert o.p[..t] == D;
    n.sign := o.sign;
    n.top := o.top;
    if n != o {
      forall k | 0 <= k < o.top { n.p[k] := o.p[k]; }
    }
    assert n.p[..n.top] == D;
    assert n.top > 0 ==> n.p[n.top-1] == D[n.top-1];
  }

  method mpcopy(o: MpInt) returns (n: MpInt)
    requires o.Valid()
    ensures fresh(n) && fresh(n.p) && n.Valid() && n.V() == o.V() && n.sign == o.sign && n.top == o.top
    ensures o.top > 0 || o.sign == 1 ==> n.Clean()
  {
    hide Val;
    n := new MpInt(DBITS * o.p.Length);
    assert DigitsFor(DBITS * o.p.Length) == o.p.Length;
    n.top := o.top;
    n.sign := o.sign;
    forall k | 0 <= k < o.top { n.p[k] := o.p[k]; }
    assert n.p[..n.top] == o.p[..o.top];
  }

  // ------------------------------------------------------------ comparisons

  method mpmagcmp(b1: MpInt, b2: MpInt) returns (r: int)
    requires b1.Valid() && b2.Valid()
    ensures Sign(r) == Sign(b1.Mag() - b2.Mag())
  {
    hide Val, BPow;
    var i := b1.top - b2.top;
    if i != 0 {
      if i < 0 {
        LongerWins(b2.p[..b2.top], b2.top - 1, b1.p[..b1.top]);
      } else {
        LongerWins(b1.p[..b1.top], b1.top - 1, b2.p[..b2.top]);
      }
      return i;
    }
    r := mpveccmp(b1.p, 0, b1.top, b2.p, 0, b2.top);
    assert b1.p[0..0+b1.top] == b1.p[..b1.top] && b2.p[0..0+b2.top] == b2.p[..b2.top];
  }

  /** The comparison is right unless it meets a positive and a negative zero. */
  method mpcmp(b1: MpInt, b2: MpInt) returns (r: int)
    requires b1.Valid() && b2.Valid()
    ensures Sign(r) == Sign(b1.V() - b2.V()) <==> !(b1.V() == 0 && b2.V() == 0 && b1.sign != b2.sign)
    ensures b1.V() == 0 && b2.V() == 0 ==> Sign(r) == Sign(b1.sign - b2.sign)
  {
    if b1.sign != b2.sign { return b1.sign - b2.sign; }
    if b1.sign < 0 {
      r := mpmagcmp(b2, b1);
    } else {
      r := mpmagcmp(b1, b2);
    }
  }

  // ------------------------------------------------ addition and subtraction

  lemma MagIsZero(b: MpInt)
    requires b.Valid()
    ensures b.Mag() == 0 <==> b.top == 0
    ensures b.V() == 0 <==> b.top == 0
  {
    hide BPow;
    if b.top > 0 { ValLead(b.p[..b.top]); }
  }

  /** mpmagadd once the longer number is b1 and neither is zero. */
  method MagAddOrdered(b1: MpInt, b2: MpInt, sum: MpInt)
    requires b1.Valid() && b2.Valid() && sum.Shape() && Own(b1, sum) && Own(b2, sum)
    requires b1.top >= b2.top > 0
    modifies sum, sum.p
    ensures sum.Valid() && sum.Clean() && sum.Mag() == old(b1.Mag()) + old(b2.Mag()) && sum.sign == 1
    ensures sum.p == old(sum.p) || fresh(sum.p)
  {
    hide Val, BPow;
    var n, m := b1.top, b2.top;
    ghost var D1, D2 := b1.p[..n], b2.p[..m];
    mpbits(sum, (n + 1) * DBITS);
    sum.top := n + 1;
    assert b1.p[0..0+n] == D1 && b2.p[0..0+m] == D2;
    mpvecadd(b1.p, 0, n, b2.p, 0, m, sum.p, 0);
    assert sum.p[0..0+n+1] == sum.p[..n+1];
    sum.sign := 1;
    ghost var t := sum.top;
    mpnorm(sum);
    assert 0 < t;
  }

  method mpmagadd(a1: MpInt, a2: MpInt, sum: MpInt)
    requires a1.Valid() && a2.Valid() && sum.Shape() && Own(a1, sum) && Own(a2, sum)
    modifies sum, sum.p
    ensures sum.Valid() && sum.Mag() == old(a1.Mag()) + old(a2.Mag())
    ensures sum.p == old(sum.p) || fresh(sum.p)
    ensures sum.sign == 1 || old(a1.V() == 0 || a2.V() == 0)
    ensures sum.sign == 1 || sum.sign == old(a1.sign) || sum.sign == old(a2.sign)
    ensures (sum == a1 || sum == a2) && old(a1.Clean() && a2.Clean()) ==> sum.Clean()
  {
    var b1, b2 := a1, a2;
    MagIsZero(a1); MagIsZero(a2);
    if b2.top > b1.top { b1, b2 := b2, b1; }
    if b1.top == 0 {
      var zero := new MpInt.OfDigit(0);
      mpassign(zero, sum);
    } else if b2.top == 0 {
      mpassign(b1, sum);
    } else {
      MagAddOrdered(b1, b2, sum);
    }
  }

  method setSign(x: MpInt, sign: int)
    requires x.Valid() && (sign == 1 || sign == -1)
    modifies x`sign
    ensures x.Valid() && x.Mag() == old(x.Mag()) && x.V() == sign * x.Mag() && x.sign == sign
  {
    x.sign := sign;
  }

  /** mpmagsub once the larger number is b1 and b2 is not zero. */
  method MagSubOrdered(b1: MpInt, b2: MpInt, diff: MpInt)
    requires b1.Valid() && b2.Valid() && diff.Shape() && Own(b1, diff) && Own(b2, diff)
    requires b1.Mag() >= b2.Mag() && b2.top > 0
    modifies diff, diff.p
    ensures diff.Valid() && diff.Clean() && diff.Mag() == old(b1.Mag()) - old(b2.Mag())
    ensures diff.sign == if diff.top == 0 then 1 else old(diff.sign)
    ensures diff.p == old(diff.p) || fresh(diff.p)
  {
    hide Val, BPow;
    var n, m := b1.top, b2.top;
    if n < m { LongerWins(b2.p[..m], m - 1, b1.p[..n]); }
    ghost var D1, D2 := b1.p[..n], b2.p[..m];
    mpbits(diff, n * DBITS);
    assert DigitsFor(n * DBITS) == n;
    assert b1.p[0..0+n] == D1 && b2.p[0..0+m] == D2;
    mpvecsub(b1.p, 0, n, b2.p, 0, m, diff.p, 0);
    assert diff.p[0..0+n] == diff.p[..n];
    diff.top := n;
    mpnorm(diff);
  }

  method mpmagsub(a1: MpInt, a2: MpInt, diff: MpInt)
    requires a1.Valid() && a2.Valid() && diff.Shape() && Own(a1, diff) && Own(a2, diff)
    modifies diff, diff.p
    ensures diff.Valid() && diff.V() == old(a1.Mag()) - old(a2.Mag())
    ensures diff.p == old(diff.p) || fresh(diff.p)
    ensures (diff == a1 || diff == a2) && old(a1.Clean() && a2.Clean()) ==> diff.Clean()
  {
    hide MpInt.Mag, MpInt.V;
    var b1, b2 := a1, a2;
    MagIsZero(a1); MagIsZero(a2);
    var sign := 1;
    var c := mpmagcmp(b1, b2);
    if c < 0 {
      sign := -1;
      b1, b2 := b2, b1;
    }
    assert b1.Mag() >= b2.Mag();
    if b2.top == 0 {
      mpassign(b1, diff);
      setSign(diff, sign);
    } else {
      MagSubOrdered(b1, b2, diff);
      MagIsZero(diff);
      if diff.top > 0 { setSign(diff, sign); }
    }
  }

  method mpadd(b1: MpInt, b2: MpInt, sum: MpInt)
    requires b1.Valid() && b2.Valid() && sum.Shape() && Own(b1, sum) && Own(b2, sum)
    modifies sum, sum.p
    ensures sum.Valid() && sum.V() == old(b1.V()) + old(b2.V())
    ensures sum.p == old(sum.p) || fresh(sum.p)
    ensures (sum == b1 || sum == b2) && old(b1.Clean() && b2.Clean()) ==> sum.Clean()
  {
    if b1.sign != b2.sign {
      if b1.sign < 0 {
        mpmagsub(b2, b1, sum);
      } else {
        mpmagsub(b1, b2, sum);
      }
    } else {
      var sign := b1.sign;
      mpmagadd(b1, b2, sum);
      MagIsZero(sum);
      if sum.top != 0 { sum.sign := sign; }
    }
  }

  method mpsub(b1: MpInt, b2: MpInt, diff: MpInt)
    requires b1.Valid() && b2.Valid() && diff.Shape() && Own(b1, diff) && Own(b2, diff)
    modifies diff, diff.p
    ensures diff.Valid() && diff.V() == old(b1.V()) - old(b2.V())
    ensures diff.p == old(diff.p) || fresh(diff.p)
    ensures (diff == b1 || diff == b2) && old(b1.Clean() && b2.Clean()) ==> diff.Clean()
  {
    if b1.sign != b2.sign {
      var sign := b1.sign;
      mpmagadd(b1, b2, diff);
      diff.sign := sign;
      return;
    }
    var sign := b1.sign;
    mpmagsub(b1, b2, diff);
    MagIsZero(diff);
    if diff.top != 0 { diff.sign := diff.sign * sign; }
  }
}
