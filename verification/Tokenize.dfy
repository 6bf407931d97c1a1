/** Splitting a line into quoted tokens, in place (libc/tokenize.c). */
module Tokenize {
  import opened CTypes
  import opened Utf
  import opened Quote

  // ------------------------------------------------------------- the tokens

  /** A separator: blank, tab, carriage return or newline. */
  predicate Sep(b: Byte)
  {
    b == 32 || b == 9 || b == 13 || b == 10
  }

  /** The token that begins at i of the line u, and where it ends; its quotes are taken off. */
  function Scan(u: seq<Byte>, i: nat, quoting: bool): (r: (seq<Byte>, nat))
    requires i <= |u|
    ensures i + |r.0| <= r.1 <= |u|
    ensures i < |u| && (quoting || !Sep(u[i])) ==> i < r.1
    ensures r.1 == |u| || Sep(u[r.1])
    decreases |u| - i
  {
    if i == |u| || (!quoting && Sep(u[i])) then ([], i)
    else if u[i] != 39 then
      var (o, e) := Scan(u, i + 1, quoting);
      ([u[i]] + o, e)
    else if !quoting then Scan(u, i + 1, true)
    else if i + 1 == |u| || u[i+1] != 39 then Scan(u, i + 1, false)
    else
      var (o, e) := Scan(u, i + 2, true);
      ([u[i]] + o, e)
  }

  /** Past the separators at i. */
  function Skip(u: seq<Byte>, i: nat): (r: nat)
    requires i <= |u|
    ensures i <= r <= |u| && (r == |u| || !Sep(u[r]))
    decreases |u| - i
  {
    if i < |u| && Sep(u[i]) then Skip(u, i + 1) else i
  }

  /** The tokens from i on, but no more than max. */
  function Tokens(u: seq<Byte>, i: nat, max: nat): (r: seq<seq<Byte>>)
    requires i <= |u|
    ensures |r| <= max
    decreases max
  {
    var j := Skip(u, i);
    if max == 0 || j == |u| then []
    else
      var (o, e) := Scan(u, j, false);
      [o] + Tokens(u, e, max - 1)
  }

  // ------------------------------------------------------------ the program

  /** A NUL-terminated string at a. */
  ghost predicate StringAt(s: seq<Byte>, a: nat, b: seq<Byte>)
  {
    a + |b| < |s| && s[a..a+|b|] == b && s[a+|b|] == 0
  }

  /** The NUL of s is at n. */
  ghost predicate EndsAt(s: seq<Byte>, n: nat)
  {
    n < |s| && s[n] == 0 && forall i :: 0 <= i < n ==> s[i] != 0
  }

  /** Nothing has changed from c on. */
  ghost predicate Same(s: seq<Byte>, s0: seq<Byte>, c: nat)
  {
    |s| == |s0| && forall i :: c <= i < |s| ==> s[i] == s0[i]
  }

  /** s is s0 but for the token b put at p. */
  ghost predicate Placed(s: seq<Byte>, s0: seq<Byte>, p: nat, b: seq<Byte>)
  {
    && |s| == |s0| && StringAt(s, p, b)
    && forall i :: 0 <= i < |s| && !(p <= i <= p + |b|) ==> s[i] == s0[i]
  }

  /** The token at p is out and what is scanned from t on. */
  ghost predicate Remains(u: seq<Byte>, p: nat, out: seq<Byte>, t: nat, quoting: bool)
    requires p <= |u| && t <= |u|
  {
    Scan(u, p, false).0 == out + Scan(u, t, quoting).0 && Scan(u, p, false).1 == Scan(u, t, quoting).1
  }

  lemma RemainsFirst(u: seq<Byte>, p: nat)
    requires p <= |u|
    ensures Remains(u, p, [], p, false)
  {
  }

  lemma RemainsNext(u: seq<Byte>, p: nat, out: seq<Byte>, t: nat, quoting: bool)
    requires p <= |u| && t < |u| && Remains(u, p, out, t, quoting) && (quoting || !Sep(u[t]))
    ensures u[t] != 39 ==> Remains(u, p, out + [u[t]], t + 1, quoting)
    ensures u[t] == 39 && !quoting ==> Remains(u, p, out, t + 1, true)
    ensures u[t] == 39 && quoting && (t + 1 == |u| || u[t+1] != 39) ==> Remains(u, p, out, t + 1, false)
    ensures u[t] == 39 && quoting && t + 1 < |u| && u[t+1] == 39 ==> Remains(u, p, out + [u[t]], t + 2, true)
  {
    var rest := Scan(u, t, quoting);
    if u[t] != 39 || (quoting && t + 1 < |u| && u[t+1] == 39) {
      assert rest.0 == [u[t]] + rest.0[1..];
      assert out + rest.0 == out + [u[t]] + rest.0[1..];
    }
  }

  lemma RemainsLast(u: seq<Byte>, p: nat, out: seq<Byte>, t: nat, quoting: bool)
    requires p <= |u| && t <= |u| && Remains(u, p, out, t, quoting) && (t == |u| || (!quoting && Sep(u[t])))
    ensures Scan(u, p, false) == (out, t)
  {
    assert out + [] == out;
  }

  /** Takes the quotes off the token at p, in place, and ends it with a NUL. */
  method qtoken(s: array<Byte>, p: nat, ghost s0: seq<Byte>, ghost n: nat) returns (t: nat)
    requires EndsAt(s0, n) && p <= n && Same(s[..], s0, p)
    modifies s
    ensures var (o, e) := Scan(s0[..n], p, false);
      Placed(s[..], old(s[..]), p, o) && t == if p + |o| == e && e < n then e + 1 else e
  {
    hide Scan, Remains;
    ghost var u, was := s0[..n], s[..];
    RemainsFirst(u, p);
    var quoting := false;
    t := p;
    var w := p;
    ghost var out: seq<Byte> := [];
    while s[t] != 0 && (quoting || !Sep(s[t]))
      invariant p <= w <= t <= n && |out| == w - p
      invariant forall i :: 0 <= i < |out| ==> s[p+i] == out[i]
      invariant forall i :: 0 <= i < s.Length && !(p <= i < w) ==> s[i] == was[i]
      invariant forall i :: w <= i < s.Length ==> s[i] == s0[i]
      invariant Remains(u, p, out, t, quoting)
      decreases n - t
    {
      RemainsNext(u, p, out, t, quoting);
      if s[t] != 39 {
        out := out + [s[t]];
        s[w] := s[t];
        w, t := w + 1, t + 1;
      } else if !quoting {
        quoting := true;
        t := t + 1;
      } else if s[t+1] != 39 {
        t := t + 1;
        quoting := false;
      } else {
        out := out + [s[t]];
        t := t + 1;
        s[w] := s[t];
        w, t := w + 1, t + 1;
      }
    }
    RemainsLast(u, p, out, t, quoting);
    if s[w] != 0 {
      s[w] := 0;
      if t == w {
        t := t + 1;
      }
    }
    assert s[p..p+|out|] == out;
  }

  /** The first strings of args are the tokens ts, and lie before c. */
  ghost predicate Split(s: seq<Byte>, args: seq<nat>, ts: seq<seq<Byte>>, c: nat, n: nat)
  {
    |ts| <= |args| && forall k :: 0 <= k < |ts| ==> StringAt(s, args[k], ts[k]) && (args[k] + |ts[k]| < c || c == n)
  }

  lemma SplitNext(s: seq<Byte>, s1: seq<Byte>, args: seq<nat>, ts: seq<seq<Byte>>, c: nat, p: nat, o: seq<Byte>, t: nat, n: nat)
    requires Split(s, args, ts, c, n) && |ts| < |args| && args[|ts|] == p && c <= p < n
    requires Placed(s1, s, p, o) && p + |o| <= n && (if t == n then true else p + |o| < t) && c <= t
    ensures Split(s1, args, ts + [o], t, n)
  {
    forall k | 0 <= k <= |ts|
      ensures StringAt(s1, args[k], (ts + [o])[k]) && (args[k] + |(ts + [o])[k]| < t || t == n)
    {
      if k < |ts| {
        var a, b := args[k], ts[k];
        assert s1[a..a+|b|] == s[a..a+|b|];
      }
    }
  }

  lemma TokensNext(u: seq<Byte>, c: nat, max: nat)
    requires c <= |u| && max > 0 && (c == |u| || !Sep(u[c]))
    ensures var (o, e) := Scan(u, c, false); Tokens(u, c, max) == if c == |u| then [] else [o] + Tokens(u, e, max - 1)
  {
  }

  /** A separator is skipped anyway. */
  lemma TokensSkip(u: seq<Byte>, c: nat, max: nat)
    requires c < |u| && Sep(u[c])
    ensures Tokens(u, c, max) == Tokens(u, c + 1, max)
  {
  }

  lemma TokensNone(u: seq<Byte>, c: nat)
    requires c <= |u|
    ensures Tokens(u, c, 0) == []
  {
  }

  /** Splits the line s into its tokens, in place. */
  method tokenize(s: array<Byte>, args: array<nat>, maxargs: nat, ghost n: nat) returns (nargs: nat)
    requires EndsAt(s[..], n) && maxargs <= args.Length && s as object != args as object
    modifies s, args
    ensures var ts := Tokens(old(s[..n]), 0, maxargs);
      nargs == |ts| && forall k :: 0 <= k < nargs ==> StringAt(s[..], args[k], ts[k])
  {
    hide Tokens, Scan, Placed, StringAt, Split, Sep;
    ghost var s0 := s[..];
    ghost var u := s0[..n];
    ghost var ts: seq<seq<Byte>> := [];
    var c: nat := 0;
    nargs := 0;
    SplitNone(s0, args[..], n);
    while nargs < maxargs
      invariant c <= n && |ts| == nargs <= maxargs && Same(s[..], s0, c)
      invariant Split(s[..], args[..], ts, c, n)
      invariant Tokens(u, 0, maxargs) == ts + Tokens(u, c, maxargs - nargs)
    {
      ghost var c0, s1, a1 := c, s[..], args[..];
      while s[c] != 0 && Sep(s[c])
        invariant c0 <= c <= n && s[..] == s1 && args[..] == a1
        invariant Tokens(u, c0, maxargs - nargs) == Tokens(u, c, maxargs - nargs)
        decreases n - c
      {
        TokensSkip(u, c, maxargs - nargs);
        c := c + 1;
      }
      TokensNext(u, c, maxargs - nargs);
      if s[c] == 0 {
        SplitOn(s1, a1, ts, c0, c, n);
        break;
      }
      SplitArgs(s1, a1, ts, c0, n, c);
      args[nargs] := c;
      ghost var o, e := Scan(u, c, false).0, Scan(u, c, false).1;
      ghost var p := c;
      c := qtoken(s, c, s0, n);
      Untouched(s[..], s1, p, o, c, s0);
      SplitNext(s1, s[..], args[..], ts, c0, p, o, c, n);
      if c != e {
        TokensSkip(u, e, maxargs - nargs - 1);
      }
      ts := ts + [o];
      nargs := nargs + 1;
    }
    TokensNone(u, c);
    SplitAll(s[..], args[..], ts, c, n);
  }

  lemma SplitAll(s: seq<Byte>, args: seq<nat>, ts: seq<seq<Byte>>, c: nat, n: nat)
    requires Split(s, args, ts, c, n)
    ensures |ts| <= |args| && forall k :: 0 <= k < |ts| ==> StringAt(s, args[k], ts[k])
  {
  }

  lemma SplitOn(s: seq<Byte>, args: seq<nat>, ts: seq<seq<Byte>>, c: nat, d: nat, n: nat)
    requires Split(s, args, ts, c, n) && c <= d <= n
    ensures Split(s, args, ts, d, n)
  {
  }

  lemma SplitNone(s: seq<Byte>, args: seq<nat>, n: nat)
    ensures Split(s, args, [], 0, n)
  {
  }

  lemma Untouched(s: seq<Byte>, s1: seq<Byte>, p: nat, o: seq<Byte>, c: nat, s0: seq<Byte>)
    requires Placed(s, s1, p, o) && p <= c && Same(s1, s0, p) && c < |s|
    requires p + |o| < c || (p + |o| == c && s0[c] == 0)
    ensures Same(s, s0, c)
  {
  }

  lemma SplitArgs(s: seq<Byte>, args: seq<nat>, ts: seq<seq<Byte>>, c: nat, n: nat, a: nat)
    requires Split(s, args, ts, c, n) && |ts| < |args|
    ensures Split(s, args[|ts| := a], ts, c, n)
  {
  }

  // ---------------------------------------------- splitting what was quoted

  /** The bytes of a text with its quotes doubled. */
  function Twice(b: seq<Byte>): seq<Byte>
  {
    if b == [] then [] else (if b[0] == 39 then [b[0], b[0]] else [b[0]]) + Twice(b[1..])
  }

  lemma {:induction false} TwiceJoin(a: seq<Byte>, b: seq<Byte>)
    ensures Twice(a + b) == Twice(a) + Twice(b)
  {
    if a == [] {
      assert a + b == b;
    } else {
      assert (a + b)[1..] == a[1..] + b;
      TwiceJoin(a[1..], b);
    }
  }

  lemma {:induction false} TwicePlain(b: seq<Byte>)
    requires forall i :: 0 <= i < |b| ==> b[i] != 39
    ensures Twice(b) == b
  {
    if b != [] {
      TwicePlain(b[1..]);
    }
  }

  /** Doubling the quotes of a text doubles those of its bytes. */
  lemma {:induction false} InsideBytes(t: seq<Rune>)
    ensures Encode(Inside(t)) == Twice(Encode(t))
  {
    hide Runetochar, Twice;
    if t == [] {
      TwicePlain([]);
    } else {
      var n := |t| - 1;
      var c := t[n];
      InsideBytes(t[..n]);
      assert t == t[..n] + [c];
      EncodeJoin(t[..n], [c]);
      EncodeJoin(Inside(t[..n]), Doubled(c));
      TwiceJoin(Encode(t[..n]), Encode([c]));
      DoubledBytes(c);
    }
  }

  lemma DoubledBytes(c: Rune)
    ensures Encode(Doubled(c)) == Twice(Encode([c]))
  {
    EncodeOne(c);
    if c == QUOTE {
      assert [c, c] == [c] + [c];
      EncodeJoin([c], [c]);
      assert Twice([39]) == [39, 39];
    } else {
      TwicePlain(Runetochar(c));
    }
  }

  /** x lies at i of u. */
  ghost predicate Here(u: seq<Byte>, i: nat, x: seq<Byte>)
  {
    i + |x| <= |u| && forall k :: 0 <= k < |x| ==> u[i+k] == x[k]
  }

  lemma HereBoth(u: seq<Byte>, i: nat, x: seq<Byte>, y: seq<Byte>)
    requires Here(u, i, x + y)
    ensures Here(u, i, x) && Here(u, i + |x|, y)
  {
    forall k | 0 <= k < |x| ensures u[i+k] == x[k] {
      assert (x + y)[k] == x[k];
    }
    forall k | 0 <= k < |y| ensures u[i+|x|+k] == y[k] {
      assert (x + y)[|x|+k] == y[k];
    }
  }

  lemma HereFirst(u: seq<Byte>, i: nat, x: seq<Byte>)
    requires Here(u, i, x) && |x| > 0
    ensures i < |u| && u[i] == x[0]
  {
    assert u[i+0] == x[0];
  }

  /** Nothing or a separator is at i. */
  predicate Stops(u: seq<Byte>, i: nat)
  {
    i == |u| || (i < |u| && Sep(u[i]))
  }

  /** Doubled quotes are folded up to the closing one. */
  lemma {:induction false} ScanQuoted(u: seq<Byte>, i: nat, b: seq<Byte>)
    requires Here(u, i, Twice(b) + [39]) && Stops(u, i + |Twice(b)| + 1)
    ensures Scan(u, i, true) == (b, i + |Twice(b)| + 1)
    decreases |b|
  {
    hide Here;
    HereFirst(u, i, Twice(b) + [39]);
    if b == [] {
      assert Scan(u, i + 1, false) == ([], i + 1);
    } else {
      var head := if b[0] == 39 then [b[0], b[0]] else [b[0]];
      assert Twice(b) + [39] == head + (Twice(b[1..]) + [39]);
      HereBoth(u, i, head, Twice(b[1..]) + [39]);
      ScanQuoted(u, i + |head|, b[1..]);
      assert u[i] == head[0];
      if b[0] == 39 {
        assert u[i+1] == head[1];
      }
      assert b == [b[0]] + b[1..];
    }
  }

  /** No quote or separator is in b. */
  predicate Bare(b: seq<Byte>)
  {
    forall i :: 0 <= i < |b| ==> b[i] != 39 && !Sep(b[i])
  }

  lemma {:induction false} ScanBare(u: seq<Byte>, i: nat, b: seq<Byte>)
    requires Here(u, i, b) && Bare(b) && Stops(u, i + |b|)
    ensures Scan(u, i, false) == (b, i + |b|)
    decreases |b|
  {
    if b != [] {
      assert b == [b[0]] + b[1..];
      HereBoth(u, i, [b[0]], b[1..]);
      ScanBare(u, i + 1, b[1..]);
      HereFirst(u, i, b);
    }
  }

  /** The bytes of a text that is printed without quotes hold no quote and no separator. */
  lemma {:induction false} PlainBytes(t: seq<Rune>, doquote: Rune -> bool)
    requires Plain(t, doquote)
    ensures Bare(Encode(t))
  {
    if t != [] {
      PlainBytes(t[1..], doquote);
      assert !Special(t[0], doquote);
    }
  }

  /** The %q form of a text, as bytes. */
  function Form(t: seq<Rune>, sharp: bool, doquote: Rune -> bool): seq<Byte>
  {
    Encode(Printed(Needs(t, sharp, doquote), t))
  }

  lemma QuotedForm(t: seq<Rune>, sharp: bool, doquote: Rune -> bool)
    requires Needs(t, sharp, doquote)
    ensures Form(t, sharp, doquote) == [39] + (Twice(Encode(t)) + [39])
  {
    hide Twice, Inside, Encode;
    QuotedBytes(t);
    InsideBytes(t);
    var b := Twice(Encode(t));
    assert [39] + b + [39] == [39] + (b + [39]);
  }

  lemma BareForm(t: seq<Rune>, sharp: bool, doquote: Rune -> bool)
    requires !Needs(t, sharp, doquote)
    ensures Form(t, sharp, doquote) == Encode(t) && Encode(t) != [] && Bare(Encode(t))
  {
    PlainBytes(t, doquote);
  }

  /** Where a form lies, a token is found that is the text it was printed from. */
  lemma ScanForm(u: seq<Byte>, i: nat, t: seq<Rune>, sharp: bool, doquote: Rune -> bool)
    requires var f := Form(t, sharp, doquote); Here(u, i, f) && Stops(u, i + |f|)
    ensures var f := Form(t, sharp, doquote); |f| > 0 && !Sep(f[0]) && Scan(u, i, false) == (Encode(t), i + |f|)
  {
    hide Scan, Twice, Needs, Form, Here, Encode;
    var b := Encode(t);
    if Needs(t, sharp, doquote) {
      QuotedForm(t, sharp, doquote);
      HereBoth(u, i, [39], Twice(b) + [39]);
      ScanQuoted(u, i + 1, b);
      HereFirst(u, i, [39]);
      OpenQuote(u, i);
    } else {
      BareForm(t, sharp, doquote);
      ScanBare(u, i, b);
    }
  }

  lemma OpenQuote(u: seq<Byte>, i: nat)
    requires i < |u| && u[i] == 39
    ensures !Sep(u[i]) && !Sep(39) && Scan(u, i, false) == Scan(u, i + 1, true)
  {
  }

  /** The forms of a list of texts, joined by spaces. */
  function Line(ts: seq<seq<Rune>>, sharp: bool, doquote: Rune -> bool): seq<Byte>
  {
    if |ts| == 0 then []
    else if |ts| == 1 then Form(ts[0], sharp, doquote)
    else Form(ts[0], sharp, doquote) + ([32] + Line(ts[1..], sharp, doquote))
  }

  function Encoded(ts: seq<seq<Rune>>): (r: seq<seq<Byte>>)
    ensures |r| == |ts| && forall i :: 0 <= i < |ts| ==> r[i] == Encode(ts[i])
  {
    if |ts| == 0 then [] else [Encode(ts[0])] + Encoded(ts[1..])
  }

  /** The tokens of such a line are the texts. */
  lemma {:induction false} LineTokens(u: seq<Byte>, i: nat, ts: seq<seq<Rune>>, sharp: bool, doquote: Rune -> bool, max: nat)
    requires Here(u, i, Line(ts, sharp, doquote)) && i + |Line(ts, sharp, doquote)| == |u| && |ts| <= max
    ensures Tokens(u, i, max) == Encoded(ts)
    decreases |ts|
  {
    hide Form, Scan, Encode;
    if |ts| > 0 {
      var f := Form(ts[0], sharp, doquote);
      if |ts| > 1 {
        var rest := Line(ts[1..], sharp, doquote);
        HereBoth(u, i, f, [32] + rest);
        HereBoth(u, i + |f|, [32], rest);
        HereFirst(u, i + |f|, [32]);
        LineTokens(u, i + |f| + 1, ts[1..], sharp, doquote, max - 1);
        TokensSkip(u, i + |f|, max - 1);
      }
      ScanForm(u, i, ts[0], sharp, doquote);
      HereFirst(u, i, f);
      TokensNext(u, i, max);
      if |ts| == 1 {
        TokensEnd(u, max - 1);
      }
    }
  }

  lemma TokensEnd(u: seq<Byte>, max: nat)
    ensures Tokens(u, |u|, max) == []
  {
  }

  /** Splitting a line of %q forms gives back exactly the texts they were printed from. */
  lemma QuotedTextsRestored(ts: seq<seq<Rune>>, sharp: bool, doquote: Rune -> bool, max: nat)
    requires |ts| <= max
    ensures Tokens(Line(ts, sharp, doquote), 0, max) == Encoded(ts)
  {
    LineTokens(Line(ts, sharp, doquote), 0, ts, sharp, doquote, max);
  }

  // ------------------------------------------------------ splitting bare words

  predicate IsBlank(b: Byte)
  {
    b == ' ' as int || b == '\t' as int || b == '\r' as int || b == '\n' as int
  }

  /** A word without blanks and quotes. */
  predicate IsWord(w: seq<Byte>)
  {
    w != [] && forall i :: 0 <= i < |w| ==> w[i] != '\'' as int && !IsBlank(w[i])
  }

  /** Words with something before each and after the last. */
  function Spread(gaps: seq<seq<Byte>>, words: seq<seq<Byte>>): seq<Byte>
    requires |gaps| == |words| + 1
  {
    if words == [] then gaps[0] else gaps[0] + (words[0] + Spread(gaps[1..], words[1..]))
  }

  /** Blanks of any of the four kinds, with at least one between two words. */
  predicate AreGaps(gaps: seq<seq<Byte>>)
  {
    && (forall k :: 0 < k < |gaps| - 1 ==> gaps[k] != [])
    && (forall k, i :: 0 <= k < |gaps| && 0 <= i < |gaps[k]| ==> IsBlank(gaps[k][i]))
  }

  lemma {:induction false} SkipGap(u: seq<Byte>, i: nat, g: seq<Byte>, max: nat)
    requires Here(u, i, g) && forall k :: 0 <= k < |g| ==> IsBlank(g[k])
    ensures Tokens(u, i, max) == Tokens(u, i + |g|, max)
    decreases |g|
  {
    hide Tokens;
    if g != [] {
      assert g == [g[0]] + g[1..];
      HereBoth(u, i, [g[0]], g[1..]);
      HereFirst(u, i, g);
      TokensSkip(u, i, max);
      SkipGap(u, i + 1, g[1..], max);
    }
  }

  lemma {:induction false} SpreadTokens(u: seq<Byte>, i: nat, gaps: seq<seq<Byte>>, words: seq<seq<Byte>>, max: nat)
    requires |gaps| == |words| + 1 <= max + 1 && AreGaps(gaps) && forall k :: 0 <= k < |words| ==> IsWord(words[k])
    requires Here(u, i, Spread(gaps, words)) && i + |Spread(gaps, words)| == |u|
    ensures Tokens(u, i, max) == words
    decreases |words|
  {
    hide Tokens, Scan, Here;
    if words == [] {
      SkipGap(u, i, gaps[0], max);
      TokensEnd(u, max);
    } else {
      var rest := Spread(gaps[1..], words[1..]);
      HereBoth(u, i, gaps[0], words[0] + rest);
      var j := i + |gaps[0]|;
      HereBoth(u, j, words[0], rest);
      var e := j + |words[0]|;
      SkipGap(u, i, gaps[0], max);
      if words[1..] != [] { SpreadFirst(u, e, gaps[1..], words[1..]); }
      else { GapFirst(u, e, gaps[1]); }
      ScanBare(u, j, words[0]);
      HereFirst(u, j, words[0]);
      TokensNext(u, j, max);
      SpreadTokens(u, e, gaps[1..], words[1..], max - 1);
    }
  }

  lemma GapFirst(u: seq<Byte>, e: nat, g: seq<Byte>)
    requires Here(u, e, g) && e + |g| == |u| && forall k :: 0 <= k < |g| ==> IsBlank(g[k])
    ensures Stops(u, e)
  {
    if g != [] { HereFirst(u, e, g); }
  }

  lemma SpreadFirst(u: seq<Byte>, e: nat, gaps: seq<seq<Byte>>, words: seq<seq<Byte>>)
    requires |gaps| == |words| + 1 && words != [] && gaps[0] != [] && IsBlank(gaps[0][0]) && Here(u, e, Spread(gaps, words))
    ensures Stops(u, e)
  {
    HereFirst(u, e, Spread(gaps, words));
  }

  /** Words with any blanks between, before and after them are split into just the words. */
  lemma BareWordsSplit(gaps: seq<seq<Byte>>, words: seq<seq<Byte>>, max: nat)
    requires |gaps| == |words| + 1 && AreGaps(gaps) && |words| <= max
    requires forall k :: 0 <= k < |words| ==> IsWord(words[k])
    ensures Tokens(Spread(gaps, words), 0, max) == words
  {
    hide Tokens;
    SpreadTokens(Spread(gaps, words), 0, gaps, words, max);
  }
}
