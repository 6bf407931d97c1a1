/** Printing a string with quotes where it needs them: the %q of the formatter (fmt/fmtquote.c). */
module Quote {
  import opened CTypes
  import opened Utf

  const QUOTE: Rune := 39

  /** Counts of what quoting a string takes in and puts out. */
  datatype Quoteinfo = Quoteinfo(quoted: bool, nrunesin: nat, nbytesin: nat, nrunesout: nat, nbytesout: nat)

  // -------------------------------------------------------- what is printed

  /** Runes that call for quotes. */
  predicate Special(c: Rune, doquote: Rune -> bool)
  {
    c <= 0x20 || c == QUOTE || doquote(c)
  }

  predicate Plain(t: seq<Rune>, doquote: Rune -> bool)
  {
    forall i :: 0 <= i < |t| ==> !Special(t[i], doquote)
  }

  /** Whether a string is printed in quotes. */
  predicate Needs(t: seq<Rune>, sharp: bool, doquote: Rune -> bool)
  {
    sharp || t == [] || !Plain(t, doquote)
  }

  function Doubled(c: Rune): seq<Rune>
  {
    if c == QUOTE then [c, c] else [c]
  }

  /** The runes between the quotes. */
  function Inside(t: seq<Rune>): (r: seq<Rune>)
    ensures |r| >= |t|
  {
    if t == [] then [] else Inside(t[..|t|-1]) + Doubled(t[|t|-1])
  }

  function Printed(quoted: bool, t: seq<Rune>): seq<Rune>
  {
    if quoted then [QUOTE] + Inside(t) + [QUOTE] else t
  }

  /** Output is counted in runes or in bytes. */
  function Size(runesout: bool, t: seq<Rune>): nat
  {
    if runesout then |t| else |Encode(t)|
  }

  function Width(runesout: bool, c: Rune): (r: nat)
    ensures r >= 1 && (c < RUNESELF ==> r == 1)
  {
    if runesout then 1 else |Runetochar(c)|
  }

  lemma SizeJoin(runesout: bool, t: seq<Rune>, u: seq<Rune>)
    ensures Size(runesout, t + u) == Size(runesout, t) + Size(runesout, u)
  {
    EncodeJoin(t, u);
  }

  lemma SizeOne(runesout: bool, c: Rune)
    ensures Size(runesout, [c]) == Width(runesout, c)
  {
    assert Encode([c]) == Runetochar(c) + Encode([]);
  }

  lemma {:induction false} InsidePlain(t: seq<Rune>, doquote: Rune -> bool)
    requires Plain(t, doquote)
    ensures Inside(t) == t
  {
    if t != [] {
      var n := |t| - 1;
      assert !Special(t[n], doquote);
      assert Plain(t[..n], doquote);
      InsidePlain(t[..n], doquote);
      assert t == t[..n] + [t[n]];
    }
  }

  /** A text is printed as it is if it holds no blank, control rune, quote or rune of the caller's, and is not empty. */
  lemma PrintedAsItIs(t: seq<Rune>, doquote: Rune -> bool)
    requires t != [] && forall k :: 0 <= k < |t| ==> t[k] > ' ' as int && t[k] != '\'' as int && !doquote(t[k])
    ensures Printed(Needs(t, false, doquote), t) == t
  {
    assert Plain(t, doquote);
  }

  /** And in quotes if it holds one of these. */
  lemma PrintedInQuotes(t: seq<Rune>, doquote: Rune -> bool, k: nat)
    requires k < |t| && (t[k] <= ' ' as int || t[k] == '\'' as int || doquote(t[k]))
    ensures Printed(Needs(t, false, doquote), t) == [QUOTE] + Inside(t) + [QUOTE]
  {
    assert Special(t[k], doquote);
  }

  /** The size of what is between the quotes. */
  lemma PrintedSize(runesout: bool, quoted: bool, t: seq<Rune>)
    ensures Size(runesout, Printed(quoted, t)) == if quoted then Size(runesout, Inside(t)) + 2 else Size(runesout, t)
  {
    hide Size;
    if quoted {
      SizeJoin(runesout, [QUOTE] + Inside(t), [QUOTE]);
      SizeJoin(runesout, [QUOTE], Inside(t));
      SizeOne(runesout, QUOTE);
    }
  }

  /** One more rune. */
  lemma PrintedNext(runesout: bool, quoted: bool, t: seq<Rune>, k: nat)
    requires k < |t|
    ensures Size(runesout, t[..k+1]) == Size(runesout, t[..k]) + Width(runesout, t[k])
    ensures Size(runesout, Printed(quoted, t[..k+1])) ==
      Size(runesout, Printed(quoted, t[..k])) + Width(runesout, t[k]) * (if quoted && t[k] == QUOTE then 2 else 1)
  {
    hide Size, Inside;
    var c := t[k];
    assert t[..k+1] == t[..k] + [c];
    SizeJoin(runesout, t[..k], [c]);
    SizeOne(runesout, c);
    PrintedSize(runesout, quoted, t[..k]);
    PrintedSize(runesout, quoted, t[..k+1]);
    if quoted {
      InsideNext(t, k);
      SizeJoin(runesout, Inside(t[..k]), Doubled(c));
      if c == QUOTE {
        SizeJoin(runesout, [c], [c]);
        assert Doubled(c) == [c] + [c];
      }
    }
  }

  lemma InsideNext(t: seq<Rune>, k: nat)
    requires k < |t|
    ensures Inside(t[..k+1]) == Inside(t[..k]) + Doubled(t[k])
  {
    assert t[..k+1][..k] == t[..k];
  }

  /** The print of a part is no larger than that of the whole. */
  lemma {:induction false} PrintedGrows(runesout: bool, quoted: bool, t: seq<Rune>, k: nat)
    requires k <= |t|
    ensures Size(runesout, Printed(quoted, t[..k])) <= Size(runesout, Printed(quoted, t))
    decreases |t| - k
  {
    if k == |t| {
      assert t[..k] == t;
    } else {
      PrintedGrows(runesout, quoted, t, k + 1);
      PrintedNext(runesout, quoted, t, k);
    }
  }

  /** Quotes take two more, for a string that needs none. */
  lemma QuotesAdd(runesout: bool, t: seq<Rune>, doquote: Rune -> bool)
    requires Plain(t, doquote)
    ensures Size(runesout, Printed(true, t)) == Size(runesout, Printed(false, t)) + 2
  {
    InsidePlain(t, doquote);
    PrintedSize(runesout, true, t);
  }

  // ------------------------------------------------------------- the counts

  /** s holds the text t and the NUL after it. */
  ghost predicate Holds(s: seq<Byte>, t: seq<Rune>)
  {
    && |Encode(t)| < |s| && s[..|Encode(t)|] == Encode(t) && s[|Encode(t)|] == 0
    && forall i :: 0 <= i < |t| ==> t[i] != 0
  }

  /** What chartorune finds after k runes. */
  lemma RuneAt(s: seq<Byte>, t: seq<Rune>, k: nat)
    requires Holds(s, t) && k <= |t|
    ensures var p := |Encode(t[..k])|; p < |s| && (k == |t| ==> Chartorune(s[p..]) == (0, 1))
    ensures var p := |Encode(t[..k])|; k < |t| ==>
      && t[k] != 0 && p + |Runetochar(t[k])| == |Encode(t[..k+1])|
      && Chartorune(s[p..]) == (t[k], |Runetochar(t[k])|)
  {
    hide Chartorune, Runetochar, Encode;
    var p := |Encode(t[..k])|;
    if k == |t| {
      assert t[..k] == t;
      NulRead(s[p..]);
    } else {
      PartsOf(t, k, |t|);
      assert t[..|t|] == t;
      NextPart(t, k);
      var rest, n := Encode(t[k+1..|t|]), |Encode(t)|;
      After(s, Encode(t[..k]), Runetochar(t[k]), rest, n);
      RuneRestored(t[k], rest + s[n..]);
    }
  }

  lemma NextPart(t: seq<Rune>, k: nat)
    requires k < |t|
    ensures Encode(t[..k+1]) == Encode(t[..k]) + Runetochar(t[k])
  {
    hide Runetochar, Encode;
    assert t[..k+1] == t[..k] + [t[k]];
    EncodeJoin(t[..k], [t[k]]);
    EncodeOne(t[k]);
  }

  lemma After(s: seq<Byte>, a: seq<Byte>, b: seq<Byte>, c: seq<Byte>, n: nat)
    requires n == |a| + |b| + |c| <= |s| && s[..n] == a + (b + c)
    ensures s[|a|..] == b + (c + s[n..])
  {
    assert s == s[..n] + s[n..];
    assert s[|a|..] == (a + (b + c))[|a|..] + s[n..];
  }

  lemma NulRead(s: seq<Byte>)
    requires |s| > 0 && s[0] == 0
    ensures Chartorune(s) == (0, 1)
  {
  }

  /** The counts are those of what is printed of the accepted part. */
  ghost predicate Counted(q: Quoteinfo, t: seq<Rune>)
  {
    && q.nrunesin <= |t| && q.nbytesin == |Encode(t[..q.nrunesin])|
    && q.nrunesout == Size(true, Printed(q.quoted, t[..q.nrunesin]))
    && q.nbytesout == Size(false, Printed(q.quoted, t[..q.nrunesin]))
  }

  function Out(q: Quoteinfo, runesout: bool): nat
  {
    if runesout then q.nrunesout else q.nbytesout
  }

  lemma CountedNone(t: seq<Rune>, quoted: bool)
    ensures var n := if quoted then 2 else 0; Counted(Quoteinfo(quoted, 0, 0, n, n), t)
    ensures Encode(t[..0]) == []
  {
    PrintedSize(true, quoted, []);
    PrintedSize(false, quoted, []);
    assert t[..0] == [];
  }

  /** Taking up one more rune. */
  lemma CountedNext(q: Quoteinfo, t: seq<Rune>, r: Quoteinfo)
    requires Counted(q, t) && q.nrunesin < |t|
    requires var c := t[q.nrunesin]; var w := |Runetochar(c)|; var d := if q.quoted && c == QUOTE then 1 else 0;
      r == Quoteinfo(q.quoted, q.nrunesin + 1, q.nbytesin + w, q.nrunesout + d + 1, q.nbytesout + d + w)
    ensures Counted(r, t) && r.nbytesin == |Encode(t[..r.nrunesin])|
  {
    hide Printed, Size, Runetochar;
    PrintedNext(true, q.quoted, t, q.nrunesin);
    PrintedNext(false, q.quoted, t, q.nrunesin);
    SizeInBytes(t[..q.nrunesin]);
    SizeInBytes(t[..q.nrunesin+1]);
  }

  lemma SizeInBytes(t: seq<Rune>)
    ensures Size(false, t) == |Encode(t)|
  {
  }

  /** Putting quotes around what is accepted. */
  lemma CountedQuoted(q: Quoteinfo, t: seq<Rune>, doquote: Rune -> bool)
    requires Counted(q, t) && !q.quoted && Plain(t[..q.nrunesin], doquote)
    ensures Counted(q.(quoted := true, nrunesout := q.nrunesout + 2, nbytesout := q.nbytesout + 2), t)
  {
    hide Printed, Size;
    QuotesAdd(true, t[..q.nrunesin], doquote);
    QuotesAdd(false, t[..q.nrunesin], doquote);
  }

  /** Whether the whole text can be printed within nout. */
  predicate Fits(t: seq<Rune>, sharp: bool, doquote: Rune -> bool, runesout: bool, nout: nat)
  {
    Size(runesout, Printed(Needs(t, sharp, doquote), t)) <= nout
  }

  /** What the next rune adds to the output. */
  function More(q: Quoteinfo, c: Rune, doquote: Rune -> bool, runesout: bool): nat
  {
    if !Special(c, doquote) then Width(runesout, c)
    else (if q.quoted then 0 else 2) + Width(runesout, c) * (if c == QUOTE then 2 else 1)
  }

  /** There is no room for the text when there is none for the next rune of it. */
  lemma NoRoom(q: Quoteinfo, t: seq<Rune>, sharp: bool, doquote: Rune -> bool, runesout: bool, nout: nat)
    requires Counted(q, t) && q.nrunesin < |t| && (q.quoted ==> Needs(t, sharp, doquote))
    requires !q.quoted ==> Plain(t[..q.nrunesin], doquote)
    requires Out(q, runesout) + More(q, t[q.nrunesin], doquote, runesout) > nout
    ensures !Fits(t, sharp, doquote, runesout, nout)
  {
    hide Printed, Width, Size, Needs, Plain;
    var k, quoted := q.nrunesin, Needs(t, sharp, doquote);
    NeedsQuotes(t, k, sharp, doquote);
    PrintedNext(runesout, quoted, t, k);
    PrintedGrows(runesout, quoted, t, k + 1);
    if quoted && !q.quoted {
      QuotesAdd(runesout, t[..k], doquote);
    }
  }

  /** Whether the first k runes of t are printed in quotes when more follow. */
  predicate Due(t: seq<Rune>, k: nat, sharp: bool, doquote: Rune -> bool)
    requires k <= |t|
  {
    sharp || t == [] || !Plain(t[..k], doquote)
  }

  /** Nothing longer than the first k runes can be printed within nout. */
  ghost predicate Longest(t: seq<Rune>, k: nat, sharp: bool, doquote: Rune -> bool, runesout: bool, nout: nat)
  {
    forall n :: k < n <= |t| ==> !Fits(t[..n], sharp, doquote, runesout, nout)
  }

  lemma NoMore(q: Quoteinfo, t: seq<Rune>, sharp: bool, doquote: Rune -> bool, runesout: bool, nout: nat)
    requires Counted(q, t) && q.nrunesin < |t| && q.quoted == Due(t, q.nrunesin, sharp, doquote)
    requires Out(q, runesout) + More(q, t[q.nrunesin], doquote, runesout) > nout
    ensures Longest(t, q.nrunesin, sharp, doquote, runesout, nout) && !Fits(t, sharp, doquote, runesout, nout)
  {
    hide Printed, Size, More, Fits;
    var k := q.nrunesin;
    forall n | k < n <= |t| ensures !Fits(t[..n], sharp, doquote, runesout, nout) {
      assert t[..n][..k] == t[..k] && t[..n][k] == t[k];
      assert forall i :: 0 <= i < k ==> t[..k][i] == t[..n][i];
      NoRoom(q, t[..n], sharp, doquote, runesout, nout);
    }
    assert t[..|t|] == t;
  }

  lemma NoQuotes(t: seq<Rune>, sharp: bool, doquote: Rune -> bool, runesout: bool, nout: nat)
    requires nout < 2 && (sharp || t == [])
    ensures Longest(t, 0, sharp, doquote, runesout, nout) && !Fits(t, sharp, doquote, runesout, nout) && Needs(t, sharp, doquote)
  {
    hide Printed, Size;
    PrintedSize(runesout, true, t);
    forall n | 0 < n <= |t| ensures !Fits(t[..n], sharp, doquote, runesout, nout) {
      PrintedSize(runesout, true, t[..n]);
    }
  }

  lemma DueNext(t: seq<Rune>, k: nat, sharp: bool, doquote: Rune -> bool)
    requires k < |t|
    ensures Due(t, k + 1, sharp, doquote) <==> Due(t, k, sharp, doquote) || Special(t[k], doquote)
    ensures Due(t, 0, sharp, doquote) <==> sharp
  {
    assert t[..k+1] == t[..k] + [t[k]];
  }

  lemma NeedsQuotes(t: seq<Rune>, k: nat, sharp: bool, doquote: Rune -> bool)
    requires k < |t|
    ensures Special(t[k], doquote) ==> Needs(t, sharp, doquote)
  {
  }

  /**
   * How much of the text s can be printed within nout, and how much comes out. The counts are exact whatever the
   * limit, no longer part of the text could be printed, and the whole is accepted just when all of its print fits.
   */
  method quotesetup(s: array<Byte>, nout: nat, sharp: bool, runesout: bool, doquote: Rune -> bool, ghost t: seq<Rune>)
    returns (q: Quoteinfo)
    requires Holds(s[..], t)
    ensures Counted(q, t) && Out(q, runesout) <= nout
    ensures !q.quoted ==> Plain(t[..q.nrunesin], doquote)
    ensures forall n :: q.nrunesin < n <= |t| ==> !Fits(t[..n], sharp, doquote, runesout, nout)
    ensures q.nrunesin == |t| && q.quoted == Needs(t, sharp, doquote) <==> Fits(t, sharp, doquote, runesout, nout)
  {
    hide Chartorune, Runetochar, Size, Printed, Needs, Encode, Fits, Plain, Due, Counted, Holds;
    q := Quoteinfo(false, 0, 0, 0, 0);
    FirstByte(s[..], t);
    NoneDue(t, sharp, doquote);
    CountedNone(t, false);
    if sharp || s[0] == 0 {
      if nout < 2 {
        NoQuotes(t, sharp, doquote, runesout, nout);
        return;
      }
      CountedNone(t, true);
      q := Quoteinfo(true, 0, 0, 2, 2);
    }
    var p := 0;
    while true
      invariant Counted(q, t) && q.nrunesin <= |t| && p == q.nbytesin == |Encode(t[..q.nrunesin])| && Out(q, runesout) <= nout
      invariant q.quoted == Due(t, q.nrunesin, sharp, doquote)
      decreases |t| - q.nrunesin
    {
      ghost var k := q.nrunesin;
      RuneAt(s[..], t, k);
      var (c, w) := Chartorune(s[p..]);
      if c == 0 {
        break;
      }
      var one := if runesout then 1 else w;
      assert one == Width(runesout, c);
      DueNext(t, k, sharp, doquote);
      NotDue(t, k, sharp, doquote);
      if Out(q, runesout) + More(q, c, doquote, runesout) > nout {
        NoMore(q, t, sharp, doquote, runesout, nout);
      }
      if Out(q, runesout) + one > nout {
        return;
      }
      if Special(c, doquote) {
        if !q.quoted {
          if 1 + Out(q, runesout) + one + 1 > nout {
            return;
          }
          CountedQuoted(q, t, doquote);
          q := q.(quoted := true, nrunesout := q.nrunesout + 2, nbytesout := q.nbytesout + 2);
        }
        if c == QUOTE {
          if 1 + Out(q, runesout) + one > nout {
            return;
          }
          CountedNext(q, t, Quoteinfo(true, k + 1, p + w, q.nrunesout + 2, q.nbytesout + 1 + w));
          q := q.(nrunesout := q.nrunesout + 1, nbytesout := q.nbytesout + 1);
        } else {
          CountedNext(q, t, Quoteinfo(true, k + 1, p + w, q.nrunesout + 1, q.nbytesout + w));
        }
      } else {
        CountedNext(q, t, Quoteinfo(q.quoted, k + 1, p + w, q.nrunesout + 1, q.nbytesout + w));
      }
      p := p + w;
      q := q.(nrunesin := q.nrunesin + 1, nbytesin := q.nbytesin + w, nrunesout := q.nrunesout + 1, nbytesout := q.nbytesout + w);
    }
    assert t[..q.nrunesin] == t;
    NotDue(t, q.nrunesin, sharp, doquote);
    AllCounted(q, t, sharp, doquote, runesout, nout);
  }

  lemma FirstByte(s: seq<Byte>, t: seq<Rune>)
    requires Holds(s, t)
    ensures |s| > 0 && (s[0] == 0 <==> t == [])
  {
    if t != [] {
      assert Encode(t)[0] == Runetochar(t[0])[0];
    }
  }

  lemma NoneDue(t: seq<Rune>, sharp: bool, doquote: Rune -> bool)
    ensures Due(t, 0, sharp, doquote) <==> sharp || t == []
    ensures Plain(t[..0], doquote)
  {
  }

  lemma NotDue(t: seq<Rune>, k: nat, sharp: bool, doquote: Rune -> bool)
    requires k <= |t|
    ensures !Due(t, k, sharp, doquote) ==> Plain(t[..k], doquote)
  {
  }

  /** The end of the text was reached. */
  lemma AllCounted(q: Quoteinfo, t: seq<Rune>, sharp: bool, doquote: Rune -> bool, runesout: bool, nout: nat)
    requires Counted(q, t) && q.nrunesin == |t| && Out(q, runesout) <= nout
    requires q.quoted == Due(t, q.nrunesin, sharp, doquote)
    ensures q.quoted == Needs(t, sharp, doquote) && Fits(t, sharp, doquote, runesout, nout)
  {
    assert t[..|t|] == t;
  }

  // ------------------------------------------------------------- the output

  /** Output to a buffer, which grows when it is full if it may. */
  class Fmt {
    var buf: array<Byte>
    var to: nat
    var stop: nat
    const growing: bool

    ghost predicate Valid()
      reads this
    {
      to <= stop <= buf.Length
    }

    ghost function Written(): seq<Byte>
      reads this, buf
      requires Valid()
    {
      buf[..to]
    }

    /** A buffer of len bytes, one of which is kept for a NUL. */
    constructor (len: nat, mayGrow: bool)
      requires len > 0
      ensures Valid() && fresh(buf) && to == 0 && stop == len - 1 && growing == mayGrow
    {
      buf := new Byte[len](i => 0);
      to, stop, growing := 0, len - 1, mayGrow;
    }

    /** Makes room for n more bytes, or gives up for good. */
    method fmtflush(n: nat) returns (ok: bool)
      requires Valid() && n <= 256
      modifies this
      ensures Valid() && (buf == old(buf) || fresh(buf)) && Written() == old(Written()) && ok == growing
      ensures if ok then to + n <= stop else stop == to
    {
      if !growing {
        stop := to;
        return false;
      }
      var more := new Byte[buf.Length + 256](i => 0);
      for i := 0 to to
        modifies more
        invariant forall j :: 0 <= j < i ==> more[j] == buf[j]
      {
        more[i] := buf[i];
      }
      buf, stop := more, stop + 256;
      ok := true;
    }

    /** Puts out one rune. */
    method putrune(r: Rune) returns (ok: bool)
      requires Valid()
      modifies this, buf
      ensures Valid() && (buf == old(buf) || fresh(buf))
      ensures ok == (growing || old(to) + |Runetochar(r)| <= old(stop))
      ensures ok ==> Written() == old(Written()) + Runetochar(r) && stop >= old(stop)
      ensures !growing && ok ==> stop == old(stop)
    {
      hide Runetochar;
      var e := Runetochar(r);
      if to + 4 > stop && to + |e| > stop {
        ok := fmtflush(|e|);
        if !ok {
          return;
        }
      }
      ghost var was := Written();
      for i := 0 to |e|
        modifies buf
        invariant forall j :: 0 <= j < i ==> buf[to+j] == e[j]
        invariant buf[..to] == was
      {
        buf[to+i] := e[i];
      }
      assert buf[..to+|e|] == was + e;
      to := to + |e|;
      ok := true;
    }

    /** The rune at m, unless it is cut off at end. */
    method getrune(s: array<Byte>, m: nat, end: nat) returns (full: bool, r: Rune, w: nat)
      requires m < end <= s.Length
      ensures Fullrune(s[m..end]) ==> full
      ensures full ==> (r, w) == Chartorune(s[..][m..])
    {
      hide Chartorune, Fullrune;
      assert s[m..] == s[..][m..];
      if s[m] < RUNESELF {
        OneByte(s[m..]);
        return true, s[m], 1;
      }
      full := end - m >= 4 || Fullrune(s[m..end]);
      r, w := RUNEERROR, 1;
      if full {
        var (c, n) := Chartorune(s[m..]);
        r, w := c, n;
      }
    }

    /** Copies the first n runes of s out, which take up end bytes, each quote once or twice. */
    method putrunes(s: array<Byte>, n: nat, end: nat, twice: bool, ghost t: seq<Rune>, ghost room: bool) returns (ok: bool)
      requires Valid() && s != buf && Holds(s[..], t) && n <= |t| && end == |Encode(t[..n])|
      requires room ==> growing || to + |Encode(Body(twice, t[..n]))| <= stop
      modifies this, buf
      ensures Valid() && (buf == old(buf) || fresh(buf))
      ensures room ==> ok
      ensures ok ==> Written() == old(Written()) + Encode(Body(twice, t[..n])) && stop >= old(stop)
      ensures ok && !growing ==> stop == old(stop)
    {
      hide Chartorune, Runetochar, Encode, Inside, Fullrune, Holds, Body;
      ghost var was, S := Written(), s[..];
      var m := 0;
      BodyNone(twice, t);
      for k := 0 to n
        invariant Valid() && (buf == old(buf) || fresh(buf)) && s[..] == S && m == |Encode(t[..k])|
        invariant Written() == was + Encode(Body(twice, t[..k])) && stop >= old(stop)
        invariant !growing ==> stop == old(stop)
      {
        Readable(S, t, k, n);
        BodyNext(twice, t, k, n);
        var full, r, w := getrune(s, m, end);
        if !full {
          return false;
        }
        m := m + w;
        ok := putrune(r);
        if !ok {
          return;
        }
        if twice && r == QUOTE {
          ok := putrune(r);
          if !ok {
            return;
          }
        }
      }
      ok := true;
    }

    /** Prints the part of s that was counted, in quotes. */
    method qstrfmt(s: array<Byte>, q: Quoteinfo, ghost t: seq<Rune>) returns (ok: bool)
      requires Valid() && s != buf && Holds(s[..], t) && Counted(q, t) && q.quoted
      modifies this, buf
      ensures Valid() && (buf == old(buf) || fresh(buf))
      ensures growing || old(to) + q.nbytesout <= old(stop) ==> ok
      ensures ok ==> Written() == old(Written()) + Encode(Printed(true, t[..q.nrunesin]))
    {
      hide Chartorune, Runetochar, Encode, Inside, Holds;
      ghost var room, was := growing || to + q.nbytesout <= stop, Written();
      ghost var b := Encode(Inside(t[..q.nrunesin]));
      QuotedBytes(t[..q.nrunesin]);
      QuoteByte();
      ok := putrune(QUOTE);
      if !ok {
        return;
      }
      ok := putrunes(s, q.nrunesin, q.nbytesin, true, t, room);
      if !ok {
        return;
      }
      ok := putrune(QUOTE);
      assert ok ==> Written() == was + ([QUOTE] + b + [QUOTE]);
    }

    /**
     * Prints s with quotes if it needs them. It never runs out of room, because no more of s is taken than can be
     * printed; and all of it is taken if its print fits.
     */
    method quotestrfmt(s: array<Byte>, sharp: bool, doquote: Rune -> bool, ghost t: seq<Rune>) returns (ok: bool, q: Quoteinfo)
      requires Valid() && s != buf && Holds(s[..], t)
      modifies this, buf
      ensures Valid() && (buf == old(buf) || fresh(buf)) && ok
      ensures q.nrunesin <= |t| && Written() == old(Written()) + Encode(Printed(q.quoted, t[..q.nrunesin]))
      ensures var outlen := if growing then 0x7FFF_FFFF else old(stop - to); Fits(t, sharp, doquote, false, outlen) ==>
        q.nrunesin == |t| && q.quoted == Needs(t, sharp, doquote)
    {
      hide Encode, Inside, Needs, Fits, Holds, Plain;
      var outlen := if growing then 0x7FFF_FFFF else stop - to;
      q := quotesetup(s, outlen, sharp, false, doquote, t);
      if !q.quoted {
        ok := putrunes(s, q.nrunesin, q.nbytesin, false, t, true);
      } else {
        ok := qstrfmt(s, q, t);
      }
    }
  }

  lemma QuotedBytes(t: seq<Rune>)
    ensures Encode(Printed(true, t)) == [QUOTE] + Encode(Inside(t)) + [QUOTE]
    ensures Size(false, Printed(true, t)) == |Encode(Inside(t))| + 2
  {
    hide Inside;
    EncodeJoin([QUOTE] + Inside(t), [QUOTE]);
    EncodeJoin([QUOTE], Inside(t));
    EncodeOne(QUOTE);
  }

  lemma QuoteByte()
    ensures Runetochar(QUOTE) == [QUOTE]
  {
  }

  function Body(twice: bool, t: seq<Rune>): seq<Rune>
  {
    if twice then Inside(t) else t
  }

  lemma BodyNone(twice: bool, t: seq<Rune>)
    ensures Encode(t[..0]) == [] && Encode(Body(twice, t[..0])) == []
  {
  }

  lemma BodyNext(twice: bool, t: seq<Rune>, k: nat, n: nat)
    requires k < n <= |t|
    ensures var e := Runetochar(t[k]);
      Encode(Body(twice, t[..k+1])) == Encode(Body(twice, t[..k])) + e + (if twice && t[k] == QUOTE then e else [])
    ensures |Encode(Body(twice, t[..k+1]))| <= |Encode(Body(twice, t[..n]))|
  {
    hide Runetochar, Inside;
    var c := t[k];
    EncodeOne(c);
    assert t[..k+1] == t[..k] + [c];
    if twice {
      InsideNext(t, k);
      EncodeJoin(Inside(t[..k]), Doubled(c));
      if c == QUOTE {
        assert Doubled(c) == [c] + [c];
        EncodeJoin([c], [c]);
      }
    } else {
      EncodeJoin(t[..k], [c]);
    }
    BodyGrows(twice, t, k + 1, n);
  }

  lemma EncodeOne(c: Rune)
    ensures Encode([c]) == Runetochar(c)
  {
    assert Encode([c]) == Runetochar(c) + Encode([]);
  }

  lemma BodyGrows(twice: bool, t: seq<Rune>, k: nat, n: nat)
    requires k <= n <= |t|
    ensures |Encode(Body(twice, t[..k]))| <= |Encode(Body(twice, t[..n]))|
  {
    hide Encode, Inside;
    PrintedGrows(false, twice, t[..n], k);
    assert t[..n][..k] == t[..k];
    PrintedSize(false, twice, t[..k]);
    PrintedSize(false, twice, t[..n]);
  }

  lemma OneByte(s: seq<Byte>)
    requires |s| > 0 && s[0] < RUNESELF
    ensures Chartorune(s) == (s[0], 1)
  {
  }

  /** The next rune of n is there to be read. */
  lemma Readable(s: seq<Byte>, t: seq<Rune>, k: nat, n: nat)
    requires Holds(s, t) && k < n <= |t|
    ensures var m, end := |Encode(t[..k])|, |Encode(t[..n])|;
      && m < end <= |s| && Fullrune(s[m..end]) && Chartorune(s[m..]) == (t[k], |Runetochar(t[k])|)
      && m + |Runetochar(t[k])| == |Encode(t[..k+1])|
  {
    hide Chartorune, Runetochar, Encode, Fullrune, Holds;
    RuneAt(s, t, k);
    WholeAt(s, t, k, n);
  }

  lemma Slices(t: seq<Rune>, k: nat, n: nat)
    requires k < n <= |t|
    ensures t == t[..n] + t[n..] && t[..n] == t[..k] + t[k..n] && t[k..n] == [t[k]] + t[k+1..n]
  {
  }

  lemma JoinOf(t: seq<Rune>, a: seq<Rune>, b: seq<Rune>)
    requires t == a + b
    ensures Encode(t) == Encode(a) + Encode(b)
  {
    hide Encode;
    EncodeJoin(a, b);
  }

  lemma PartsOf(t: seq<Rune>, k: nat, n: nat)
    requires k < n <= |t|
    ensures Encode(t[..n]) == Encode(t[..k]) + (Runetochar(t[k]) + Encode(t[k+1..n]))
    ensures Encode(t) == Encode(t[..n]) + Encode(t[n..])
  {
    hide Runetochar, Encode;
    Slices(t, k, n);
    JoinOf(t, t[..n], t[n..]);
    JoinOf(t[..n], t[..k], t[k..n]);
    JoinOf(t[k..n], [t[k]], t[k+1..n]);
    EncodeOne(t[k]);
  }

  lemma Cut(s: seq<Byte>, a: seq<Byte>, b: seq<Byte>)
    requires |a| + |b| <= |s| && s[..|a| + |b|] == a + b
    ensures s[|a|..|a| + |b|] == b
  {
    assert s[|a|..|a| + |b|] == s[..|a| + |b|][|a|..];
  }

  lemma WholeAt(s: seq<Byte>, t: seq<Rune>, k: nat, n: nat)
    requires Holds(s, t) && k < n <= |t|
    ensures var p, e := |Encode(t[..k])|, |Encode(t[..n])|; p < e <= |s| && Fullrune(s[p..e])
  {
    hide Runetochar, Fullrune, Encode;
    var a, b, e := Encode(t[..k]), Runetochar(t[k]) + Encode(t[k+1..n]), |Encode(t[..n])|;
    PartsOf(t, k, n);
    assert s[..e] == s[..|Encode(t)|][..e] == Encode(t)[..e] == a + b;
    Cut(s, a, b);
    WholeRune(t[k], Encode(t[k+1..n]));
  }
}
