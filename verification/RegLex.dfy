/** From a pattern's text to tokens (nextc, lex and bldcclass in regcomp.c). */
module RegLex {
  import opened RegProg
  import opened RegLang
  import opened RegParse

  type Range = (Rune, Rune)

  /** Places for runes in a class, and classes in a program. */
  const NCCRUNE: nat := 64
  const NCLASS: nat := 16

  const CARET: Rune := 94
  const BACKSLASH: Rune := 92
  const LBRACKET: Rune := 91
  const RBRACKET: Rune := 93
  const MINUS: Rune := 45

  /** The next rune of the pattern, whether it was quoted, and where to go on; 0 at the end. */
  datatype NextRune = NextRune(rune: Rune, quoted: bool, p: nat)

  function Next(s: seq<Rune>, p: nat): (r: NextRune)
    requires p <= |s|
    ensures p <= r.p <= |s|
    ensures r.rune != 0 ==> p < r.p
  {
    if p == |s| then NextRune(0, false, p)
    else if s[p] != BACKSLASH then NextRune(s[p], false, p + 1)
    else if p + 1 == |s| then NextRune(0, true, p + 1)
    else NextRune(s[p+1], true, p + 2)
  }

  /** The ranges written in a class from p on, and where the class ends. */
  datatype ClassText = Bad(why: Reason) | Ranges(ranges: seq<Range>, p: nat)

  /**
   * A rune stands for itself; a minus makes the rune after it the end of the last range.
   * c is the rune at hand and ranges are those already read.
   */
  function ReadRanges(s: seq<Rune>, c: NextRune, ranges: seq<Range>): (r: ClassText)
    requires c.p <= |s|
    ensures r.Ranges? ==> c.p <= r.p <= |s|
    decreases |s| - c.p, if c.rune == 0 then 0 else 1
  {
    if 2 * |ranges| >= NCCRUNE - 1 then Bad(ClassTooLarge)
    else if c.rune == 0 then Bad(MalformedClass)
    else if !c.quoted && c.rune == RBRACKET then Ranges(ranges, c.p)
    else
      var d := Next(s, c.p);
      if !c.quoted && c.rune == MINUS then
        if ranges == [] || (!d.quoted && d.rune == RBRACKET) || d.rune == 0 then Bad(MalformedClass)
        else
          var n := |ranges| - 1;
          ReadRanges(s, Next(s, d.p), ranges[n := (ranges[n].0, d.rune)])
      else ReadRanges(s, d, ranges + [(c.rune, c.rune)])
  }

  /** A class whose bracket is behind p: negated ones have newline as their first range. */
  function ReadClass(s: seq<Rune>, p: nat): (r: (bool, ClassText))
    requires p <= |s|
    ensures r.1.Ranges? ==> p <= r.1.p <= |s|
  {
    var c := Next(s, p);
    if !c.quoted && c.rune == CARET then (true, ReadRanges(s, Next(s, c.p), [(NL, NL)]))
    else (false, ReadRanges(s, c, []))
  }

  /** Two lists of ranges that hold the same runes. */
  ghost predicate SameRunes(a: seq<Range>, b: seq<Range>)
  {
    forall r: Rune :: InSpans(a, r) <==> InSpans(b, r)
  }

  /** The operator or operand an unquoted rune stands for, classes apart. */
  function Plain(c: Rune, dot: Inst): Token
  {
    if c == 42 then Operator(STAR)
    else if c == 63 then Operator(QUEST)
    else if c == 43 then Operator(PLUS)
    else if c == 124 then Operator(OR)
    else if c == 46 then Operand(dot)
    else if c == 40 then Operator(LBRA)
    else if c == 41 then Operator(RBRA)
    else if c == CARET then Operand(Bol(0))
    else if c == 36 then Operand(Eol(0))
    else Operand(Char(c, 0))
  }

  /** The token t stands at p in the pattern, and the next one begins at q. */
  ghost predicate Lexes(s: seq<Rune>, literal: bool, dot: Inst, p: nat, t: Token, q: nat)
    requires p <= |s|
  {
    var c := Next(s, p);
    && c.rune != 0
    && if literal || c.quoted then t == Operand(Char(c.rune, 0)) && q == c.p
       else if c.rune == LBRACKET then
         var (negated, text) := ReadClass(s, c.p);
         && text.Ranges? && q == text.p && t.Operand?
         && (if negated then t.inst.NClass? else t.inst.Class?)
         && SameRunes(t.inst.spans, text.ranges)
       else t == Plain(c.rune, dot) && q == c.p
  }

  /** A class stands at p that cannot be had: it is malformed or too large, or there are n classes already. */
  predicate ClassFails(s: seq<Rune>, literal: bool, p: nat, n: nat, why: Reason)
    requires p <= |s|
  {
    var c := Next(s, p);
    && !literal && !c.quoted && c.rune == LBRACKET
    && if n >= NCLASS then why == TooManyClasses else ReadClass(s, c.p).1 == Bad(why)
  }

  /** How many of the tokens are classes. */
  function Classes(tokens: seq<Token>): nat
  {
    if tokens == [] then 0 else Classes(tokens[..|tokens|-1]) + (if IsClass(tokens[|tokens|-1]) then 1 else 0)
  }

  predicate IsClass(t: Token)
  {
    t.Operand? && (t.inst.Class? || t.inst.NClass?)
  }

  ghost predicate AtEnd(s: seq<Rune>, p: nat)
    requires p <= |s|
  {
    Next(s, p).rune == 0
  }

  /** The tokens stand one after another from p to q. */
  ghost predicate LexesAll(s: seq<Rune>, literal: bool, dot: Inst, p: nat, tokens: seq<Token>, q: nat)
    requires p <= |s| && q <= |s|
    decreases |tokens|
  {
    if tokens == [] then q == p
    else
      var n := |tokens| - 1;
      exists m: nat :: m <= |s| && LexesAll(s, literal, dot, p, tokens[..n], m) && Lexes(s, literal, dot, m, tokens[n], q)
  }

  lemma LexesOneMore(s: seq<Rune>, literal: bool, dot: Inst, p: nat, tokens: seq<Token>, m: nat, t: Token, q: nat)
    requires p <= |s| && m <= |s| && q <= |s|
    requires LexesAll(s, literal, dot, p, tokens, m) && Lexes(s, literal, dot, m, t, q)
    ensures LexesAll(s, literal, dot, p, tokens + [t], q)
  {
    assert (tokens + [t])[..|tokens|] == tokens;
  }

  /** Ranges in order of where they start. */
  predicate SortedFrom(a: seq<Range>)
  {
    forall i, j :: 0 <= i < j < |a| ==> a[i].0 <= a[j].0
  }

  /** The first p ranges are in place, and the one at p is the least of those up to np. */
  predicate SortedTo(a: seq<Range>, p: nat, np: nat)
    requires p <= np <= |a|
  {
    && (forall i, j :: 0 <= i < p && i < j < |a| ==> a[i].0 <= a[j].0)
    && (forall j :: p <= j < np ==> a[p].0 <= a[j].0)
  }

  /** A range that starts before the one at p changes places with it. */
  lemma SwapRanges(a: seq<Range>, p: nat, np: nat)
    requires p <= np < |a| && SortedTo(a, p, np) && a[np].0 < a[p].0
    ensures SortedTo(a[np := a[p]][p := a[np]], p, np + 1)
    ensures multiset(a[np := a[p]][p := a[np]]) == multiset(a)
  {
  }

  lemma SameMultisetRunes(a: seq<Range>, b: seq<Range>)
    requires multiset(a) == multiset(b)
    ensures SameRunes(a, b)
  {
    forall r: Rune ensures InSpans(a, r) <==> InSpans(b, r) {
      if InSpans(a, r) {
        var k :| 0 <= k < |a| && a[k].0 <= r <= a[k].1;
        assert a[k] in multiset(b);
        var l :| 0 <= l < |b| && b[l] == a[k];
      }
      if InSpans(b, r) {
        var k :| 0 <= k < |b| && b[k].0 <= r <= b[k].1;
        assert b[k] in multiset(a);
        var l :| 0 <= l < |a| && a[l] == b[k];
      }
    }
  }

  lemma NextPlace(a: seq<Range>, p: nat)
    requires p < |a| && SortedTo(a, p, |a|)
    ensures SortedTo(a, p + 1, p + 1)
  {
  }

  lemma InPlace(a: seq<Range>, p: nat, np: nat)
    requires p <= np < |a| && SortedTo(a, p, np) && a[np].0 >= a[p].0
    ensures SortedTo(a, p, np + 1)
  {
  }

  /** The inner loop: the least of the ranges from p on comes to p. */
  method leastFirst(r: array<Range>, p: nat)
    requires p < r.Length && SortedTo(r[..], p, p)
    modifies r
    ensures SortedTo(r[..], p + 1, p + 1) && multiset(r[..]) == multiset(old(r[..]))
  {
    hide SortedTo;
    ghost var bag := multiset(r[..]);
    var np := p;
    while np < r.Length
      invariant p <= np <= r.Length && SortedTo(r[..], p, np) && multiset(r[..]) == bag
    {
      ghost var a := r[..];
      if r[np].0 < r[p].0 {
        SwapRanges(a, p, np);
        r[np], r[p] := r[p], r[np];
        assert r[..] == a[np := a[p]][p := a[np]];
      } else {
        InPlace(a, p, np);
      }
      np := np + 1;
    }
    NextPlace(r[..], p);
  }

  /** Sorts the ranges in place on where they start. */
  method sortRanges(r: array<Range>)
    modifies r
    ensures SortedFrom(r[..]) && multiset(r[..]) == multiset(old(r[..]))
  {
    var p := 0;
    while p < r.Length
      invariant p <= r.Length && SortedTo(r[..], p, p) && multiset(r[..]) == multiset(old(r[..]))
    {
      leastFirst(r, p);
      p := p + 1;
    }
  }

  /** Ranges apart from one another, in order. */
  predicate Apart(a: seq<Range>)
  {
    forall i :: 0 <= i < |a| - 1 ==> a[i].1 + 1 < a[i+1].0
  }

  /** One more range joins the last one when they overlap or touch, and follows it otherwise. */
  lemma JoinRange(done: seq<Range>, rest: seq<Range>, p: Range, joined: seq<Range>)
    requires |done| > 0 && done[|done|-1].0 <= p.0
    requires var n := |done| - 1;
      joined == if p.0 <= done[n].1 + 1 then (if p.1 >= done[n].1 then done[n := (done[n].0, p.1)] else done) else done + [p]
    ensures forall r: Rune :: InSpans(joined, r) <==> InSpans(done, r) || p.0 <= r <= p.1
  {
    var n := |done| - 1;
    forall r: Rune ensures InSpans(joined, r) <==> InSpans(done, r) || p.0 <= r <= p.1 {
      if InSpans(joined, r) {
        var k :| 0 <= k < |joined| && joined[k].0 <= r <= joined[k].1;
        if k < n { assert done[k].0 <= r <= done[k].1; }
        if k == n && r <= done[n].1 { assert done[n].0 <= r <= done[n].1; }
      }
      if InSpans(done, r) {
        var k :| 0 <= k < |done| && done[k].0 <= r <= done[k].1;
        assert joined[k].0 <= r <= joined[k].1;
      }
      if p.0 <= r <= p.1 {
        if p.0 <= done[n].1 + 1 {
          assert joined[n].0 <= r <= joined[n].1;
        } else {
          assert joined[n+1].0 <= r <= joined[n+1].1;
        }
      }
    }
  }

  lemma OneMoreSpan(r: seq<Range>, k: nat, x: Rune)
    requires k < |r|
    ensures InSpans(r[..k+1], x) <==> InSpans(r[..k], x) || r[k].0 <= x <= r[k].1
  {
    if InSpans(r[..k+1], x) {
      var l :| 0 <= l < k + 1 && r[..k+1][l].0 <= x <= r[..k+1][l].1;
      if l < k { assert r[..k][l] == r[l]; }
    }
    if InSpans(r[..k], x) {
      var l :| 0 <= l < k && r[..k][l].0 <= x <= r[..k][l].1;
      assert r[..k+1][l] == r[l];
    }
    assert r[..k+1][k] == r[k];
  }

  /** Merges sorted ranges: the same runes, in ranges that neither overlap nor touch. */
  method mergeRanges(r: seq<Range>) returns (spans: seq<Range>)
    requires SortedFrom(r)
    ensures SameRunes(spans, r) && Apart(spans) && |spans| <= |r|
  {
    spans := [];
    if r == [] {
      return;
    }
    spans := [r[0]];
    var p := 1;
    while p < |r|
      invariant 1 <= p <= |r| && 0 < |spans| <= p
      invariant Apart(spans) && spans[|spans|-1].0 <= r[p-1].0
      invariant forall x: Rune :: InSpans(spans, x) <==> InSpans(r[..p], x)
    {
      var np := |spans| - 1;
      ghost var done := spans;
      if r[p].0 <= spans[np].1 + 1 {
        if r[p].1 >= spans[np].1 {
          spans := spans[np := (spans[np].0, r[p].1)];
        }
      } else {
        spans := spans + [r[p]];
      }
      JoinRange(done, r, r[p], spans);
      forall x: Rune ensures InSpans(spans, x) <==> InSpans(r[..p+1], x) { OneMoreSpan(r, p, x); }
      p := p + 1;
    }
    assert r[..p] == r;
  }
}
