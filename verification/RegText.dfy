/** How expressions are written as patterns. */
module RegText {
  import opened RegProg
  import opened RegLang
  import opened RegParse
  import opened RegCode
  import opened RegLex

  /** The runes that stand for something else in a pattern, and in a class. */
  const Special: set<Rune> := {Code('*'), Code('+'), Code('?'), Code('|'), Code('('), Code(')'), Code('.'), Code('^'), Code('$'), Code('['), Code('\\')}
  const ClassSpecial: set<Rune> := {Code(']'), Code('-'), Code('^'), Code('\\')}

  function Code(c: char): Rune
  {
    c as nat
  }

  /** The rune c is written with a backslash before it, which it needs if it is special, or as it is. */
  predicate RuneText(c: Rune, s: seq<Rune>, special: set<Rune>)
  {
    c != 0 && (s == [Code('\\'), c] || (s == [c] && c !in special))
  }

  /** A range of a class is one rune, or two with a minus between them. */
  predicate RangeText(r: Range, s: seq<Rune>)
  {
    || (r.0 == r.1 && RuneText(r.0, s, ClassSpecial))
    || exists k :: 0 <= k < |s| && s[k] == Code('-') && RuneText(r.0, s[..k], ClassSpecial) && RuneText(r.1, s[k+1..], ClassSpecial)
  }

  predicate RangesText(ranges: seq<Range>, s: seq<Rune>)
  {
    if ranges == [] then s == []
    else exists k :: 0 <= k <= |s| && RangeText(ranges[0], s[..k]) && RangesText(ranges[1..], s[k..])
  }

  /** How an operand is written; dot is the instruction of the dot. */
  predicate AtomText(inst: Inst, dot: Inst, s: seq<Rune>)
  {
    match inst
    case Char(c, _) => RuneText(c, s, Special)
    case Any(_) => dot.Any? && s == [Code('.')]
    case AnyNl(_) => dot.AnyNl? && s == [Code('.')]
    case Bol(_) => s == [Code('^')]
    case Eol(_) => s == [Code('$')]
    case Class(ranges, _) => |s| >= 2 && s[0] == Code('[') && s[|s|-1] == Code(']') && RangesText(ranges, s[1..|s|-1])
    case NClass(ranges, _) =>
      |s| >= 3 && s[0] == Code('[') && s[1] == Code('^') && s[|s|-1] == Code(']') && RangesText(ranges, s[2..|s|-1])
    case _ => false
  }

  /** The text s is the expression written out. */
  predicate Writes(e: Exp, dot: Inst, s: seq<Rune>)
  {
    match e
    case Atom(inst) => AtomText(inst, dot, s)
    case Group(sub, _) => |s| >= 2 && s[0] == Code('(') && s[|s|-1] == Code(')') && Writes(sub, dot, s[1..|s|-1])
    case Cat(a, b) => exists k :: 0 <= k <= |s| && Writes(a, dot, s[..k]) && Writes(b, dot, s[k..])
    case Alt(a, b) => exists k :: 0 <= k < |s| && s[k] == Code('|') && Writes(a, dot, s[..k]) && Writes(b, dot, s[k+1..])
    case Postfix(op, sub) =>
      && |s| > 0 && Writes(sub, dot, s[..|s|-1])
      && s[|s|-1] == Code(match op case STAR => '*' case PLUS => '+' case _ => '?')
  }

  /** The expression as it is meant: a negated class takes no newline. */
  function Meant(e: Exp): Exp
  {
    match e
    case Atom(NClass(ranges, _)) => Atom(NClass([(NL, NL)] + ranges, 0))
    case Atom(inst) => Atom(Linked(inst, 0))
    case Group(sub, id) => Group(Meant(sub), id)
    case Cat(a, b) => Cat(Meant(a), Meant(b))
    case Alt(a, b) => Alt(Meant(a), Meant(b))
    case Postfix(op, sub) => Postfix(op, Meant(sub))
  }

  lemma {:induction false} MeantShape(e: Exp)
    ensures IsAlt(e) ==> IsAlt(Meant(e))
    ensures IsCat(e) ==> IsCat(Meant(e))
    ensures IsPost(e) ==> IsPost(Meant(e))
    ensures WellMade(e) ==> WellMade(Meant(e))
  {
    Levels(e);
    Levels(Meant(e));
    match e
    case Atom(_) =>
    case Group(sub, _) => MeantShape(sub);
    case Cat(a, b) => MeantShape(a); MeantShape(b);
    case Alt(a, b) => MeantShape(a); MeantShape(b);
    case Postfix(_, sub) => MeantShape(sub);
  }

  // Tokens that differ in nothing that matters.

  /** The same token, but perhaps for how a class is put into ranges. */
  ghost predicate Like(t: Token, u: Token)
  {
    || t == u
    || (t.Operand? && u.Operand? && (if t.inst.Class? then u.inst.Class? else t.inst.NClass? && u.inst.NClass?) && SameRunes(t.inst.spans, u.inst.spans))
  }

  ghost predicate AllLike(s: seq<Token>, t: seq<Token>)
  {
    |s| == |t| && forall k :: 0 <= k < |s| ==> Like(s[k], t[k])
  }

  /** The expression with other tokens for its own. */
  ghost function Respelt(e: Exp, tokens: seq<Token>): Exp
    requires |tokens| == |Print(e)|
  {
    match e
    case Atom(_) => if tokens[0].Operand? then Atom(tokens[0].inst) else e
    case Group(sub, id) => Group(Respelt(sub, tokens[1..|tokens|-1]), id)
    case Cat(a, b) => Cat(Respelt(a, tokens[..|Print(a)|]), Respelt(b, tokens[|Print(a)|..]))
    case Alt(a, b) => Alt(Respelt(a, tokens[..|Print(a)|]), Respelt(b, tokens[|Print(a)|+1..]))
    case Postfix(op, sub) => Postfix(op, Respelt(sub, tokens[..|tokens|-1]))
  }

  /** Like tokens are those of an expression that matches the same. */
  lemma {:induction false} RespeltSame(e: Exp, tokens: seq<Token>)
    requires AllLike(tokens, Print(e)) && WellMade(e)
    ensures Print(Respelt(e, tokens)) == tokens && Same(Respelt(e, tokens), e) && Shape(Respelt(e, tokens), e)
    decreases e, 1
  {
    match e
    case Atom(_) => AtomRespelt(e, tokens);
    case Group(_, _) => GroupRespelt(e, tokens);
    case Cat(_, _) => CatRespelt(e, tokens);
    case Alt(_, _) => AltRespelt(e, tokens);
    case Postfix(_, _) => PostfixRespelt(e, tokens);
  }

  /** An expression of the same form. */
  predicate Shape(f: Exp, e: Exp)
  {
    && (IsAlt(e) ==> IsAlt(f)) && (IsCat(e) ==> IsCat(f)) && (IsPost(e) ==> IsPost(f))
  }

  lemma Levels(e: Exp)
    ensures !e.Alt? ==> IsAlt(e) == IsCat(e)
    ensures !e.Cat? ==> IsCat(e) == IsPost(e)
    ensures e.Alt? || e.Cat? ==> !IsPost(e)
  {
  }

  /** A part of like tokens. */
  lemma PartLike(tokens: seq<Token>, all: seq<Token>, i: nat, part: seq<Token>)
    requires AllLike(tokens, all) && i + |part| <= |all| && all[i..i+|part|] == part
    ensures AllLike(tokens[i..i+|part|], part)
  {
    hide Like;
    forall k | 0 <= k < |part| ensures Like(tokens[i..i+|part|][k], part[k]) {
      assert part[k] == all[i..i+|part|][k] == all[i+k];
      assert tokens[i..i+|part|][k] == tokens[i+k];
      assert Like(tokens[i+k], all[i+k]);
    }
  }

  lemma {:induction false} GroupRespelt(e: Exp, tokens: seq<Token>)
    requires e.Group? && AllLike(tokens, Print(e)) && WellMade(e)
    ensures Print(Respelt(e, tokens)) == tokens && Same(Respelt(e, tokens), e) && Shape(Respelt(e, tokens), e)
    decreases e, 0
  {
    hide Like, Lang;
    var sub, n := e.sub, |Print(e.sub)|;
    PartLike(tokens, Print(e), 1, Print(sub));
    LikeAt(tokens, Print(e), 0, LBRA);
    LikeAt(tokens, Print(e), n + 1, RBRA);
    RespeltSame(sub, tokens[1..n+1]);
    var f := Respelt(sub, tokens[1..n+1]);
    SameGroup(f, sub, e.subid);
    Levels(e);
    Levels(Group(f, e.subid));
    assert tokens == [Operator(LBRA)] + tokens[1..n+1] + [Operator(RBRA)];
  }

  lemma SameGroup(f: Exp, e: Exp, id: nat)
    requires Same(f, e)
    ensures Same(Group(f, id), Group(e, id))
  {
  }

  lemma SamePair(f: Exp, g: Exp, a: Exp, b: Exp)
    requires Same(f, a) && Same(g, b)
    ensures Same(Cat(f, g), Cat(a, b)) && Same(Alt(f, g), Alt(a, b))
  {
  }

  lemma SamePostfix(f: Exp, e: Exp, op: Op)
    requires Same(f, e) && IsPostfix(op)
    ensures Same(Postfix(op, f), Postfix(op, e))
  {
  }

  lemma {:induction false} CatRespelt(e: Exp, tokens: seq<Token>)
    requires e.Cat? && AllLike(tokens, Print(e)) && WellMade(e)
    ensures Print(Respelt(e, tokens)) == tokens && Same(Respelt(e, tokens), e) && Shape(Respelt(e, tokens), e)
    decreases e, 0
  {
    hide Like, Lang, Same;
    var a, b, n := e.left, e.right, |Print(e.left)|;
    PartLike(tokens, Print(e), 0, Print(a));
    PartLike(tokens, Print(e), n, Print(b));
    assert tokens[0..n] == tokens[..n] && tokens[n..n+|Print(b)|] == tokens[n..];
    RespeltSame(a, tokens[..n]);
    RespeltSame(b, tokens[n..]);
    SamePair(Respelt(a, tokens[..n]), Respelt(b, tokens[n..]), a, b);
    Levels(e);
    Levels(Respelt(e, tokens));
    assert tokens == tokens[..n] + tokens[n..];
  }

  lemma {:induction false} AltRespelt(e: Exp, tokens: seq<Token>)
    requires e.Alt? && AllLike(tokens, Print(e)) && WellMade(e)
    ensures Print(Respelt(e, tokens)) == tokens && Same(Respelt(e, tokens), e) && Shape(Respelt(e, tokens), e)
    decreases e, 0
  {
    hide Like, Lang, Same;
    var a, b, n := e.left, e.right, |Print(e.left)|;
    PartLike(tokens, Print(e), 0, Print(a));
    PartLike(tokens, Print(e), n + 1, Print(b));
    LikeAt(tokens, Print(e), n, OR);
    assert tokens[0..n] == tokens[..n] && tokens[n+1..n+1+|Print(b)|] == tokens[n+1..];
    RespeltSame(a, tokens[..n]);
    RespeltSame(b, tokens[n+1..]);
    SamePair(Respelt(a, tokens[..n]), Respelt(b, tokens[n+1..]), a, b);
    Levels(e);
    Levels(Respelt(e, tokens));
    Divided(tokens, n);
  }

  lemma Divided(tokens: seq<Token>, n: nat)
    requires n < |tokens|
    ensures tokens == tokens[..n] + [tokens[n]] + tokens[n+1..]
  {
  }

  lemma {:induction false} PostfixRespelt(e: Exp, tokens: seq<Token>)
    requires e.Postfix? && AllLike(tokens, Print(e)) && WellMade(e)
    ensures Print(Respelt(e, tokens)) == tokens && Same(Respelt(e, tokens), e) && Shape(Respelt(e, tokens), e)
    decreases e, 0
  {
    hide Like, Lang, Same;
    var sub, n := e.sub, |Print(e.sub)|;
    PartLike(tokens, Print(e), 0, Print(sub));
    LikeAt(tokens, Print(e), n, e.op);
    assert tokens[0..n] == tokens[..n];
    RespeltSame(sub, tokens[..n]);
    SamePostfix(Respelt(sub, tokens[..n]), sub, e.op);
    Levels(e);
    Levels(Respelt(e, tokens));
    assert tokens == tokens[..n] + [Operator(e.op)];
  }

  lemma LikeAt(tokens: seq<Token>, all: seq<Token>, k: nat, op: Op)
    requires AllLike(tokens, all) && k < |all| && all[k] == Operator(op)
    ensures tokens[k] == Operator(op)
  {
    assert Like(tokens[k], all[k]);
  }

  lemma AtomRespelt(e: Exp, tokens: seq<Token>)
    requires e.Atom? && AllLike(tokens, Print(e)) && WellMade(e)
    ensures Print(Respelt(e, tokens)) == tokens && Same(Respelt(e, tokens), e) && Shape(Respelt(e, tokens), e)
  {
    assert Like(tokens[0], Print(e)[0]);
    var f := Respelt(e, tokens);
    assert f == Atom(tokens[0].inst) && WellMade(f);
    forall text: seq<Rune> ensures Lang(f, text) == Lang(e, text) { }
    Levels(e);
    Levels(f);
  }

  // What the lexer makes of a written expression.

  /** Where a token is written: the lexer makes of it one like it, or has no room for a class. */
  ghost predicate TokenAt(s: seq<Rune>, dot: Inst, p: nat, t: Token, q: nat)
  {
    && p < q <= |s| && !AtEnd(s, p)
    && (forall t': Token, q': nat :: Lexes(s, false, dot, p, t', q') ==> Like(t', t) && q' == q)
    && (forall n: nat, why: Reason :: ClassFails(s, false, p, n, why) ==> NoRoomFor(t, n, why))
  }

  /** With n classes there is no room for another one, or this one has too many ranges. */
  predicate NoRoomFor(t: Token, n: nat, why: Reason)
  {
    IsClass(t) && if n >= NCLASS then why == TooManyClasses else why == ClassTooLarge && 2 * |t.inst.spans| >= NCCRUNE - 1
  }

  /** The tokens are written one after another, each from its place to the next. */
  ghost predicate TokensAt(s: seq<Rune>, dot: Inst, tokens: seq<Token>, at: seq<nat>)
  {
    |at| == |tokens| + 1 && at[0] <= at[|tokens|] <= |s| && forall k :: 0 <= k < |tokens| ==> TokenAt(s, dot, at[k], tokens[k], at[k+1])
  }

  lemma TokensJoin(s: seq<Rune>, dot: Inst, a: seq<Token>, at: seq<nat>, b: seq<Token>, bt: seq<nat>)
    requires TokensAt(s, dot, a, at) && TokensAt(s, dot, b, bt) && at[|a|] == bt[0]
    ensures TokensAt(s, dot, a + b, at + bt[1..])
    ensures (at + bt[1..])[0] == at[0] && (at + bt[1..])[|a|+|b|] == bt[|b|]
  {
    hide TokenAt;
    var c, ct := a + b, at + bt[1..];
    forall k | 0 <= k < |c| ensures TokenAt(s, dot, ct[k], c[k], ct[k+1]) {
      if k < |a| { assert TokenAt(s, dot, at[k], a[k], at[k+1]); } else { assert TokenAt(s, dot, bt[k-|a|], b[k-|a|], bt[k-|a|+1]); }
    }
  }

  lemma TokensOne(s: seq<Rune>, dot: Inst, p: nat, t: Token, q: nat)
    requires TokenAt(s, dot, p, t, q)
    ensures TokensAt(s, dot, [t], [p, q])
  {
  }

  lemma RuneNext(s: seq<Rune>, p: nat, q: nat, c: Rune, special: set<Rune>)
    requires p <= q <= |s| && RuneText(c, s[p..q], special) && Code('\\') in special
    ensures p < q && c != 0 && exists quoted :: Next(s, p) == NextRune(c, quoted, q) && (quoted || c !in special)
  {
    if s[p..q] == [Code('\\'), c] {
      assert s[p..q][0] == s[p] && s[p..q][1] == s[p+1];
      assert Next(s, p) == NextRune(c, true, q);
    } else {
      assert s[p..q][0] == s[p];
      assert Next(s, p) == NextRune(c, false, q);
    }
  }

  lemma Slice(s: seq<Rune>, p: nat, q: nat, i: nat, j: nat)
    requires p <= q <= |s| && i <= j <= q - p
    ensures s[p..q][i..j] == s[p+i..p+j]
    ensures i == 0 ==> s[p..q][..j] == s[p..p+j]
    ensures j == q - p ==> s[p..q][i..] == s[p+i..q]
  {
    var a, b := s[p..q][i..j], s[p+i..p+j];
    assert |a| == |b| && forall k :: 0 <= k < |a| ==> a[k] == b[k];
    assert s[p..q][..j] == s[p..q][0..j];
    assert s[p..q][i..] == s[p..q][i..q-p];
  }

  /** What has been read of a class that ends before q. */
  function Read(ranges: seq<Range>, q: nat): ClassText
  {
    if 2 * |ranges| >= NCCRUNE - 1 then Bad(ClassTooLarge) else Ranges(ranges, q)
  }

  lemma ReadFull(s: seq<Rune>, c: NextRune, ranges: seq<Range>)
    requires c.p <= |s| && 2 * |ranges| >= NCCRUNE - 1
    ensures ReadRanges(s, c, ranges) == Bad(ClassTooLarge)
  {
  }

  lemma ReadOne(s: seq<Rune>, c: NextRune, ranges: seq<Range>)
    requires c.p <= |s| && 2 * |ranges| < NCCRUNE - 1 && c.rune != 0 && (c.quoted || (c.rune != RBRACKET && c.rune != MINUS))
    ensures ReadRanges(s, c, ranges) == ReadRanges(s, Next(s, c.p), ranges + [(c.rune, c.rune)])
  {
  }

  lemma ReadTwo(s: seq<Rune>, p: nat, ranges: seq<Range>, lo: Rune, d: NextRune)
    requires p < |s| && s[p] == MINUS && 2 * |ranges| + 2 < NCCRUNE - 1
    requires d == Next(s, p + 1) && d.rune != 0 && (d.quoted || d.rune != RBRACKET)
    ensures ReadRanges(s, Next(s, p), ranges + [(lo, lo)]) == ReadRanges(s, Next(s, d.p), ranges + [(lo, d.rune)])
  {
    var two := ranges + [(lo, lo)];
    assert Next(s, p) == NextRune(MINUS, false, p + 1);
    hide Next;
    ReadMinus(s, Next(s, p), two);
    hide ReadRanges;
    assert two[|ranges| := (lo, d.rune)] == ranges + [(lo, d.rune)];
  }

  lemma ReadMinus(s: seq<Rune>, c: NextRune, ranges: seq<Range>)
    requires c.p <= |s| && c.rune == MINUS && !c.quoted && ranges != [] && 2 * |ranges| < NCCRUNE - 1
    requires var d := Next(s, c.p); d.rune != 0 && (d.quoted || d.rune != RBRACKET)
    ensures var d, n := Next(s, c.p), |ranges| - 1; ReadRanges(s, c, ranges) == ReadRanges(s, Next(s, d.p), ranges[n := (ranges[n].0, d.rune)])
  {
    hide Next;
  }

  lemma ReadEnd(s: seq<Rune>, q: nat, ranges: seq<Range>)
    requires q < |s| && s[q] == RBRACKET
    ensures ReadRanges(s, Next(s, q), ranges) == Read(ranges, q + 1)
  {
  }

  /** One range is read. */
  lemma RangeRead(s: seq<Rune>, p: nat, q: nat, r: Range, ranges: seq<Range>)
    requires p <= q <= |s| && RangeText(r, s[p..q]) && 2 * |ranges| < NCCRUNE - 1
    ensures p < q
    ensures ReadRanges(s, Next(s, p), ranges) ==
      if 2 * |ranges| + 2 >= NCCRUNE - 1 then Bad(ClassTooLarge) else ReadRanges(s, Next(s, q), ranges + [r])
  {
    hide ReadRanges, Next, RuneText;
    if r.0 == r.1 && RuneText(r.0, s[p..q], ClassSpecial) {
      RuneNext(s, p, q, r.0, ClassSpecial);
      ReadOne(s, Next(s, p), ranges);
      if 2 * |ranges| + 2 >= NCCRUNE - 1 { ReadFull(s, Next(s, q), ranges + [r]); }
    } else {
      var k := MinusAt(s, p, q, r);
      PairRead(s, p, p + k, q, r, ranges);
    }
  }

  lemma MinusAt(s: seq<Rune>, p: nat, q: nat, r: Range) returns (k: nat)
    requires p <= q <= |s| && RangeText(r, s[p..q]) && !(r.0 == r.1 && RuneText(r.0, s[p..q], ClassSpecial))
    ensures p + k < q && s[p+k] == Code('-') && RuneText(r.0, s[p..p+k], ClassSpecial) && RuneText(r.1, s[p+k+1..q], ClassSpecial)
  {
    hide RuneText;
    k :| 0 <= k < q - p && s[p..q][k] == Code('-') && RuneText(r.0, s[p..q][..k], ClassSpecial) && RuneText(r.1, s[p..q][k+1..], ClassSpecial);
    Slice(s, p, q, 0, k);
    Slice(s, p, q, k + 1, q - p);
  }

  /** Two runes with a minus at m between them. */
  lemma PairRead(s: seq<Rune>, p: nat, m: nat, q: nat, r: Range, ranges: seq<Range>)
    requires p <= m < q <= |s| && s[m] == Code('-') && RuneText(r.0, s[p..m], ClassSpecial) && RuneText(r.1, s[m+1..q], ClassSpecial)
    requires 2 * |ranges| < NCCRUNE - 1
    ensures ReadRanges(s, Next(s, p), ranges) ==
      if 2 * |ranges| + 2 >= NCCRUNE - 1 then Bad(ClassTooLarge) else ReadRanges(s, Next(s, q), ranges + [r])
  {
    hide ReadRanges, Next, RuneText;
    RuneNext(s, p, m, r.0, ClassSpecial);
    RuneNext(s, m + 1, q, r.1, ClassSpecial);
    ReadOne(s, Next(s, p), ranges);
    if 2 * |ranges| + 2 >= NCCRUNE - 1 {
      ReadFull(s, Next(s, m), ranges + [(r.0, r.0)]);
    } else {
      ReadTwo(s, m, ranges, r.0, Next(s, m + 1));
    }
  }

  lemma {:induction false} RangesRead(s: seq<Rune>, p: nat, q: nat, more: seq<Range>, ranges: seq<Range>)
    requires p <= q < |s| && RangesText(more, s[p..q]) && s[q] == Code(']')
    ensures ReadRanges(s, Next(s, p), ranges) == Read(ranges + more, q + 1)
    decreases |more|
  {
    hide ReadRanges, RangeText, RangesText, Next;
    if 2 * |ranges| >= NCCRUNE - 1 {
      ReadFull(s, Next(s, p), ranges);
    } else if more == [] {
      assert ranges + more == ranges;
      NoRanges(s[p..q]);
      assert p == q;
      ReadEnd(s, q, ranges);
    } else {
      var k := FirstRange(s, p, q, more);
      RangeRead(s, p, p + k, more[0], ranges);
      if 2 * |ranges| + 2 < NCCRUNE - 1 {
        RangesRead(s, p + k, q, more[1..], ranges + [more[0]]);
        assert ranges + [more[0]] + more[1..] == ranges + more;
      }
    }
  }

  lemma NoRanges(s: seq<Rune>)
    requires RangesText([], s)
    ensures s == []
  {
  }

  lemma FirstRange(s: seq<Rune>, p: nat, q: nat, more: seq<Range>) returns (k: nat)
    requires p <= q < |s| && RangesText(more, s[p..q]) && more != []
    ensures p + k <= q && RangeText(more[0], s[p..p+k]) && RangesText(more[1..], s[p+k..q])
  {
    hide RangeText;
    k :| 0 <= k <= q - p && RangeText(more[0], s[p..q][..k]) && RangesText(more[1..], s[p..q][k..]);
    Slice(s, p, q, 0, k);
    Slice(s, p, q, k, q - p);
  }

  lemma PlainAt(s: seq<Rune>, dot: Inst, p: nat, t: Token)
    requires p < |s| && s[p] != 0 && s[p] != BACKSLASH && s[p] != LBRACKET && Plain(s[p], dot) == t
    ensures TokenAt(s, dot, p, t, p + 1)
  {
  }

  lemma CharAt(s: seq<Rune>, dot: Inst, p: nat, q: nat, c: Rune)
    requires p <= q <= |s| && RuneText(c, s[p..q], Special)
    ensures TokenAt(s, dot, p, Operand(Char(c, 0)), q)
  {
    RuneNext(s, p, q, c, Special);
  }

  /** The class written from p to q, negated or not. */
  lemma ClassAt(s: seq<Rune>, dot: Inst, p: nat, q: nat, ranges: seq<Range>)
    requires p + 2 <= q <= |s| && s[p] == Code('[') && s[q-1] == Code(']') && RangesText(ranges, s[p+1..q-1])
    ensures TokenAt(s, dot, p, Operand(Class(ranges, 0)), q)
  {
    hide ReadRanges, RangesText;
    RangesRead(s, p + 1, q - 1, ranges, []);
    assert [] + ranges == ranges;
    NoCaret(s, p + 1, q - 1, ranges);
    assert Next(s, p) == NextRune(LBRACKET, false, p + 1);
    assert ReadClass(s, p + 1) == (false, Read(ranges, q));
    ReadAt(s, dot, p, q, Class(ranges, 0));
  }

  lemma NegatedAt(s: seq<Rune>, dot: Inst, p: nat, q: nat, ranges: seq<Range>)
    requires p + 3 <= q <= |s| && s[p] == Code('[') && s[p+1] == Code('^') && s[q-1] == Code(']') && RangesText(ranges, s[p+2..q-1])
    ensures TokenAt(s, dot, p, Operand(NClass([(NL, NL)] + ranges, 0)), q)
  {
    hide ReadRanges, RangesText;
    RangesRead(s, p + 2, q - 1, ranges, [(NL, NL)]);
    assert Next(s, p) == NextRune(LBRACKET, false, p + 1);
    assert Next(s, p + 1) == NextRune(CARET, false, p + 2);
    assert ReadClass(s, p + 1) == (true, Read([(NL, NL)] + ranges, q));
    ReadAt(s, dot, p, q, NClass([(NL, NL)] + ranges, 0));
  }

  /** A class that is not negated does not begin with a caret as it is. */
  lemma NoCaret(s: seq<Rune>, p: nat, q: nat, ranges: seq<Range>)
    requires p <= q < |s| && RangesText(ranges, s[p..q]) && s[q] == Code(']')
    ensures Next(s, p).quoted || Next(s, p).rune != CARET
  {
    hide RangesText, RuneText;
    if ranges == [] {
      NoRanges(s[p..q]);
      assert p == q;
    } else {
      hide Next, RangeText;
      var k := FirstRange(s, p, q, ranges);
      var r := ranges[0];
      if r.0 == r.1 && RuneText(r.0, s[p..p+k], ClassSpecial) {
        RuneNext(s, p, p + k, r.0, ClassSpecial);
      } else {
        var m := MinusAt(s, p, p + k, r);
        RuneNext(s, p, p + m, r.0, ClassSpecial);
      }
    }
  }

  lemma ReadAt(s: seq<Rune>, dot: Inst, p: nat, q: nat, inst: Inst)
    requires p < q <= |s| && Next(s, p) == NextRune(LBRACKET, false, p + 1) && (inst.Class? || inst.NClass?)
    requires ReadClass(s, p + 1) == (inst.NClass?, Read(inst.spans, q))
    ensures TokenAt(s, dot, p, Operand(inst), q)
  {
    hide ReadClass, Next;
  }

  lemma {:induction false} AtomAt(s: seq<Rune>, dot: Inst, p: nat, q: nat, e: Exp)
    requires p <= q <= |s| && e.Atom? && AtomText(e.inst, dot, s[p..q]) && (dot == Any(0) || dot == AnyNl(0))
    ensures Print(Meant(e)) == [Print(Meant(e))[0]] && TokenAt(s, dot, p, Print(Meant(e))[0], q)
  {
    hide TokenAt, RangesText, RuneText;
    var w := s[p..q];
    match e.inst {
      case Char(c, _) => CharAt(s, dot, p, q, c);
      case Class(ranges, _) =>
        Slice(s, p, q, 1, q - p - 1);
        assert w[0] == s[p] && w[|w|-1] == s[q-1];
        ClassAt(s, dot, p, q, ranges);
      case NClass(ranges, _) =>
        Slice(s, p, q, 2, q - p - 1);
        assert w[0] == s[p] && w[1] == s[p+1] && w[|w|-1] == s[q-1];
        NegatedAt(s, dot, p, q, ranges);
      case Any(_) => OneAt(s, dot, p, q, Code('.'), Operand(dot));
      case AnyNl(_) => OneAt(s, dot, p, q, Code('.'), Operand(dot));
      case Bol(_) => OneAt(s, dot, p, q, Code('^'), Operand(Bol(0)));
      case Eol(_) => OneAt(s, dot, p, q, Code('$'), Operand(Eol(0)));
      case Lbra(_, _) =>
      case Rbra(_, _) =>
      case Or(_, _) =>
      case Nop(_) =>
      case End =>
    }
  }

  lemma OneAt(s: seq<Rune>, dot: Inst, p: nat, q: nat, c: Rune, t: Token)
    requires p <= q <= |s| && s[p..q] == [c] && c != 0 && c != BACKSLASH && c != LBRACKET && Plain(c, dot) == t
    ensures TokenAt(s, dot, p, t, q)
  {
    assert s[p..q][0] == s[p];
    PlainAt(s, dot, p, t);
  }

  /** The tokens of a written expression stand one after another. */
  lemma {:induction false} WrittenTokens(s: seq<Rune>, dot: Inst, p: nat, q: nat, e: Exp) returns (at: seq<nat>)
    requires p <= q <= |s| && WellMade(e) && Writes(e, dot, s[p..q]) && (dot == Any(0) || dot == AnyNl(0))
    ensures TokensAt(s, dot, Print(Meant(e)), at) && |at| > 0 && at[0] == p && at[|at|-1] == q
    decreases e, 1
  {
    hide *;
    match e
    case Atom(_) => at := WrittenAtom(s, dot, p, q, e);
    case Group(_, _) => at := WrittenGroup(s, dot, p, q, e);
    case Cat(_, _) => at := WrittenCat(s, dot, p, q, e);
    case Alt(_, _) => at := WrittenAlt(s, dot, p, q, e);
    case Postfix(_, _) => at := WrittenPostfix(s, dot, p, q, e);
  }

  lemma {:induction false} WrittenAtom(s: seq<Rune>, dot: Inst, p: nat, q: nat, e: Exp) returns (at: seq<nat>)
    requires e.Atom? && p <= q <= |s| && WellMade(e) && Writes(e, dot, s[p..q]) && (dot == Any(0) || dot == AnyNl(0))
    ensures TokensAt(s, dot, Print(Meant(e)), at) && |at| > 0 && at[0] == p && at[|at|-1] == q
    decreases e, 0
  {
    hide TokenAt, TokensAt, Writes;
    AtomWritten(s, dot, p, q, e);
    AtomAt(s, dot, p, q, e);
    TokensOne(s, dot, p, Print(Meant(e))[0], q);
    at := [p, q];
  }

  lemma AtomWritten(s: seq<Rune>, dot: Inst, p: nat, q: nat, e: Exp)
    requires p <= q <= |s| && e.Atom? && Writes(e, dot, s[p..q])
    ensures AtomText(e.inst, dot, s[p..q])
  {
  }

  lemma {:induction false} WrittenGroup(s: seq<Rune>, dot: Inst, p: nat, q: nat, e: Exp) returns (at: seq<nat>)
    requires e.Group? && p <= q <= |s| && WellMade(e) && Writes(e, dot, s[p..q]) && (dot == Any(0) || dot == AnyNl(0))
    ensures TokensAt(s, dot, Print(Meant(e)), at) && |at| > 0 && at[0] == p && at[|at|-1] == q
    decreases e, 0
  {
    hide TokenAt, TokensAt, Writes;
    GroupText(s, dot, p, q, e);
    at := WrittenTokens(s, dot, p + 1, q - 1, e.sub);
    at := Bracketed(s, dot, Print(Meant(e.sub)), at, q);
  }

  lemma {:induction false} WrittenCat(s: seq<Rune>, dot: Inst, p: nat, q: nat, e: Exp) returns (at: seq<nat>)
    requires e.Cat? && p <= q <= |s| && WellMade(e) && Writes(e, dot, s[p..q]) && (dot == Any(0) || dot == AnyNl(0))
    ensures TokensAt(s, dot, Print(Meant(e)), at) && |at| > 0 && at[0] == p && at[|at|-1] == q
    decreases e, 0
  {
    hide TokenAt, TokensAt, Writes;
    var k := CatText(s, dot, p, q, e);
    at := WrittenTokens(s, dot, p, k, e.left);
    var more := WrittenTokens(s, dot, k, q, e.right);
    at := Joined(s, dot, Print(Meant(e.left)), at, Print(Meant(e.right)), more);
  }

  lemma {:induction false} WrittenAlt(s: seq<Rune>, dot: Inst, p: nat, q: nat, e: Exp) returns (at: seq<nat>)
    requires e.Alt? && p <= q <= |s| && WellMade(e) && Writes(e, dot, s[p..q]) && (dot == Any(0) || dot == AnyNl(0))
    ensures TokensAt(s, dot, Print(Meant(e)), at) && |at| > 0 && at[0] == p && at[|at|-1] == q
    decreases e, 0
  {
    hide TokenAt, TokensAt, Writes;
    var k := AltText(s, dot, p, q, e);
    PlainAt(s, dot, k, Operator(OR));
    at := WrittenTokens(s, dot, p, k, e.left);
    at := Extended(s, dot, Print(Meant(e.left)), at, Operator(OR), k + 1);
    var more := WrittenTokens(s, dot, k + 1, q, e.right);
    at := Joined(s, dot, Print(Meant(e.left)) + [Operator(OR)], at, Print(Meant(e.right)), more);
  }

  lemma {:induction false} WrittenPostfix(s: seq<Rune>, dot: Inst, p: nat, q: nat, e: Exp) returns (at: seq<nat>)
    requires e.Postfix? && p <= q <= |s| && WellMade(e) && Writes(e, dot, s[p..q]) && (dot == Any(0) || dot == AnyNl(0))
    ensures TokensAt(s, dot, Print(Meant(e)), at) && |at| > 0 && at[0] == p && at[|at|-1] == q
    decreases e, 0
  {
    hide TokenAt, TokensAt, Writes;
    PostfixText(s, dot, p, q, e);
    at := WrittenTokens(s, dot, p, q - 1, e.sub);
    at := Extended(s, dot, Print(Meant(e.sub)), at, Operator(e.op), q);
  }

  lemma GroupText(s: seq<Rune>, dot: Inst, p: nat, q: nat, e: Exp)
    requires p <= q <= |s| && e.Group? && Writes(e, dot, s[p..q])
    ensures p + 2 <= q && s[p] == Code('(') && s[q-1] == Code(')') && Writes(e.sub, dot, s[p+1..q-1])
  {
    var w := s[p..q];
    assert w[0] == s[p] && w[|w|-1] == s[q-1];
    Slice(s, p, q, 1, q - p - 1);
  }

  lemma CatText(s: seq<Rune>, dot: Inst, p: nat, q: nat, e: Exp) returns (m: nat)
    requires p <= q <= |s| && e.Cat? && Writes(e, dot, s[p..q])
    ensures p <= m <= q && Writes(e.left, dot, s[p..m]) && Writes(e.right, dot, s[m..q])
  {
    var w := s[p..q];
    var k :| 0 <= k <= |w| && Writes(e.left, dot, w[..k]) && Writes(e.right, dot, w[k..]);
    Slice(s, p, q, 0, k);
    Slice(s, p, q, k, q - p);
    m := p + k;
  }

  lemma AltText(s: seq<Rune>, dot: Inst, p: nat, q: nat, e: Exp) returns (m: nat)
    requires p <= q <= |s| && e.Alt? && Writes(e, dot, s[p..q])
    ensures p <= m < q && Writes(e.left, dot, s[p..m]) && Writes(e.right, dot, s[m+1..q]) && s[m] == Code('|')
  {
    hide Writes;
    var k := BarIn(e, dot, s[p..q]);
    Slice(s, p, q, 0, k);
    Slice(s, p, q, k + 1, q - p);
    m := p + k;
    assert s[p..q][k] == s[m];
  }

  lemma BarIn(e: Exp, dot: Inst, w: seq<Rune>) returns (k: nat)
    requires e.Alt? && Writes(e, dot, w)
    ensures k < |w| && w[k] == Code('|') && Writes(e.left, dot, w[..k]) && Writes(e.right, dot, w[k+1..])
  {
    k :| 0 <= k < |w| && w[k] == Code('|') && Writes(e.left, dot, w[..k]) && Writes(e.right, dot, w[k+1..]);
  }

  lemma PostfixText(s: seq<Rune>, dot: Inst, p: nat, q: nat, e: Exp)
    requires p <= q <= |s| && e.Postfix? && IsPostfix(e.op) && Writes(e, dot, s[p..q])
    ensures p < q && Writes(e.sub, dot, s[p..q-1]) && TokenAt(s, dot, q - 1, Operator(e.op), q)
  {
    var w := s[p..q];
    assert w[|w|-1] == s[q-1];
    Slice(s, p, q, 0, q - p - 1);
    hide TokenAt, Writes;
    PlainAt(s, dot, q - 1, Operator(e.op));
  }

  lemma Joined(s: seq<Rune>, dot: Inst, a: seq<Token>, at: seq<nat>, b: seq<Token>, bt: seq<nat>) returns (ct: seq<nat>)
    requires TokensAt(s, dot, a, at) && TokensAt(s, dot, b, bt) && |at| > 0 && |bt| > 0 && at[|at|-1] == bt[0]
    ensures TokensAt(s, dot, a + b, ct) && |ct| > 0 && ct[0] == at[0] && ct[|ct|-1] == bt[|bt|-1]
  {
    hide TokenAt;
    TokensJoin(s, dot, a, at, b, bt);
    ct := at + bt[1..];
  }

  lemma Extended(s: seq<Rune>, dot: Inst, a: seq<Token>, at: seq<nat>, t: Token, q: nat) returns (ct: seq<nat>)
    requires TokensAt(s, dot, a, at) && |at| > 0 && TokenAt(s, dot, at[|at|-1], t, q)
    ensures TokensAt(s, dot, a + [t], ct) && |ct| > 0 && ct[0] == at[0] && ct[|ct|-1] == q
  {
    hide TokenAt, TokensAt;
    TokensOne(s, dot, at[|at|-1], t, q);
    ct := Joined(s, dot, a, at, [t], [at[|at|-1], q]);
  }

  lemma Bracketed(s: seq<Rune>, dot: Inst, a: seq<Token>, at: seq<nat>, q: nat) returns (ct: seq<nat>)
    requires TokensAt(s, dot, a, at) && |at| > 0 && 0 < at[0] && at[|at|-1] < |s| && q == at[|at|-1] + 1
    requires at[0] <= |s| && s[at[0]-1] == Code('(') && s[q-1] == Code(')')
    ensures TokensAt(s, dot, [Operator(LBRA)] + a + [Operator(RBRA)], ct) && |ct| > 0 && ct[0] == at[0] - 1 && ct[|ct|-1] == q
  {
    hide TokenAt, TokensAt;
    PlainAt(s, dot, at[0] - 1, Operator(LBRA));
    PlainAt(s, dot, q - 1, Operator(RBRA));
    TokensOne(s, dot, at[0] - 1, Operator(LBRA), at[0]);
    ct := Joined(s, dot, [Operator(LBRA)], [at[0] - 1, at[0]], a, at);
    ct := Extended(s, dot, [Operator(LBRA)] + a, ct, Operator(RBRA), q);
  }

  /** What has been lexed is like the tokens written, as far as it goes. */
  lemma {:induction false} LexedLike(s: seq<Rune>, dot: Inst, tokens: seq<Token>, m: nat, all: seq<Token>, at: seq<nat>)
    requires m <= |s| && LexesAll(s, false, dot, 0, tokens, m) && TokensAt(s, dot, all, at) && at[0] == 0 && at[|all|] == |s|
    ensures |tokens| <= |all| && m == at[|tokens|] && AllLike(tokens, all[..|tokens|])
    decreases |tokens|
  {
    hide Lexes, Like;
    if tokens != [] {
      var n := |tokens| - 1;
      var k: nat :| k <= |s| && LexesAll(s, false, dot, 0, tokens[..n], k) && Lexes(s, false, dot, k, tokens[n], m);
      LexedLike(s, dot, tokens[..n], k, all, at);
      if n == |all| {
        NothingAtEnd(s, dot, tokens[n], m);
        assert false;
      }
      assert TokenAt(s, dot, at[n], all[n], at[n+1]);
      assert Like(tokens[n], all[n]);
      forall i | 0 <= i <= n ensures Like(tokens[i], all[..n+1][i]) {
        if i < n { assert Like(tokens[..n][i], all[..n][i]); }
      }
    }
  }

  lemma NothingAtEnd(s: seq<Rune>, dot: Inst, t: Token, q: nat)
    ensures !Lexes(s, false, dot, |s|, t, q)
  {
  }

  // What the tables must have room for.

  /** An expression is too much for the tables in the way that why tells. */
  ghost predicate TooMuch(e: Exp, why: Reason)
  {
    var all := Print(Meant(e));
    || ((why == StackOverflow || why == TooManySubs) && !HasRoom(e, 0, 0, 1))
    || (why == TooManyClasses && Classes(all) > NCLASS)
    || (why == ClassTooLarge && exists k :: 0 <= k < |all| && IsClass(all[k]) && 2 * |all[k].inst.spans| >= NCCRUNE - 1)
  }

  lemma {:induction false} MeantRoom(e: Exp, na: nat, no: nat)
    ensures Fits(Meant(e), na, no) == Fits(e, na, no) && Groups(Meant(e)) == Groups(e) && Stacked(Meant(e)) == Stacked(e)
  {
    match e
    case Atom(_) =>
    case Group(sub, _) => MeantRoom(sub, na, no + 1);
    case Cat(a, b) => MeantRoom(a, na, no); MeantRoom(b, na + 1, no + 1);
    case Alt(a, b) => MeantRoom(a, na, no); MeantRoom(b, na + 1, no + 1);
    case Postfix(_, sub) => MeantRoom(sub, na, no);
  }

  lemma {:induction false} RespeltRoom(e: Exp, tokens: seq<Token>, na: nat, no: nat)
    requires |tokens| == |Print(e)|
    ensures var f := Respelt(e, tokens); Fits(f, na, no) == Fits(e, na, no) && Groups(f) == Groups(e) && Stacked(f) == Stacked(e)
  {
    RespeltParts(e, tokens);
    hide Respelt, Print;
    match e
    case Atom(_) =>
    case Group(sub, _) => RespeltRoom(sub, tokens[1..|tokens|-1], na, no + 1);
    case Cat(a, b) => RespeltRoom(a, tokens[..|Print(a)|], na, no); RespeltRoom(b, tokens[|Print(a)|..], na + 1, no + 1);
    case Alt(a, b) => RespeltRoom(a, tokens[..|Print(a)|], na, no); RespeltRoom(b, tokens[|Print(a)|+1..], na + 1, no + 1);
    case Postfix(_, sub) => RespeltRoom(sub, tokens[..|tokens|-1], na, no);
  }

  lemma RespeltParts(e: Exp, tokens: seq<Token>)
    requires |tokens| == |Print(e)|
    ensures e.Atom? ==> Respelt(e, tokens).Atom?
    ensures e.Group? ==> |tokens| == |Print(e.sub)| + 2 && Respelt(e, tokens) == Group(Respelt(e.sub, tokens[1..|tokens|-1]), e.subid)
    ensures e.Cat? ==>
      var n := |Print(e.left)|;
      |tokens| == n + |Print(e.right)| && Respelt(e, tokens) == Cat(Respelt(e.left, tokens[..n]), Respelt(e.right, tokens[n..]))
    ensures e.Alt? ==>
      var n := |Print(e.left)|;
      |tokens| == n + |Print(e.right)| + 1 && Respelt(e, tokens) == Alt(Respelt(e.left, tokens[..n]), Respelt(e.right, tokens[n+1..]))
    ensures e.Postfix? ==> |tokens| == |Print(e.sub)| + 1 && Respelt(e, tokens) == Postfix(e.op, Respelt(e.sub, tokens[..|tokens|-1]))
  {
  }

  lemma {:induction false} ClassesLike(s: seq<Token>, t: seq<Token>)
    requires AllLike(s, t)
    ensures Classes(s) == Classes(t)
    decreases |s|
  {
    hide SameRunes;
    if s != [] {
      var n := |s| - 1;
      assert Like(s[n], t[n]);
      forall k | 0 <= k < n ensures Like(s[..n][k], t[..n][k]) { assert Like(s[k], t[k]); }
      ClassesLike(s[..n], t[..n]);
    }
  }

  lemma {:induction false} ClassesGrow(s: seq<Token>, n: nat)
    requires n < |s| && IsClass(s[n])
    ensures Classes(s) > Classes(s[..n])
    decreases |s|
  {
    var m := |s| - 1;
    if n < m {
      ClassesGrow(s[..m], n);
      assert s[..m][..n] == s[..n];
    }
  }

  /** What has been lexed begins an expression that matches what was meant and needs the same room. */
  lemma BeginsExpression(s: seq<Rune>, dot: Inst, e: Exp, tokens: seq<Token>, m: nat, at: seq<nat>) returns (f: Exp)
    requires IsAlt(e) && WellMade(e) && m <= |s| && LexesAll(s, false, dot, 0, tokens, m)
    requires TokensAt(s, dot, Print(Meant(e)), at) && |at| > 0 && at[0] == 0 && at[|at|-1] == |s|
    ensures |tokens| < |at| && m == at[|tokens|] && Classes(tokens) == Classes(Print(Meant(e))[..|tokens|])
    ensures |at| == |Print(Meant(e))| + 1 && |Print(f)| == |Print(Meant(e))|
    ensures IsAlt(f) && tokens <= Print(f) && Same(f, Meant(e)) && HasRoom(f, 0, 0, 1) == HasRoom(e, 0, 0, 1)
  {
    hide TokenAt, LexesAll, Like, IsAlt, Fits, WellMade, Same;
    var all := Print(Meant(e));
    LexedLike(s, dot, tokens, m, all, at);
    var n := |tokens|;
    ClassesLike(tokens, all[..n]);
    var full := tokens + all[n..];
    FullLike(tokens, all);
    MeantShape(e);
    RespeltSame(Meant(e), full);
    f := Respelt(Meant(e), full);
    MeantRoom(e, 0, 1);
    RespeltRoom(Meant(e), full, 0, 1);
  }

  lemma FullLike(tokens: seq<Token>, all: seq<Token>)
    requires |tokens| <= |all| && AllLike(tokens, all[..|tokens|])
    ensures AllLike(tokens + all[|tokens|..], all)
  {
    hide SameRunes;
    var n := |tokens|;
    forall k | 0 <= k < |all| ensures Like((tokens + all[n..])[k], all[k]) {
      if k < n { assert Like(tokens[k], all[..n][k]); }
    }
  }

  // Literal patterns.

  /** The runes of s one after another. */
  function Chain(s: seq<Rune>): Exp
    requires s != []
  {
    var n := |s| - 1;
    if n == 0 then Atom(Char(s[0], 0)) else Cat(Chain(s[..n]), Atom(Char(s[n], 0)))
  }

  function Letters(s: seq<Rune>): (t: seq<Token>)
    ensures |t| == |s| && forall k :: 0 <= k < |s| ==> t[k] == Operand(Char(s[k], 0))
  {
    if s == [] then [] else Letters(s[..|s|-1]) + [Operand(Char(s[|s|-1], 0))]
  }

  lemma {:induction false} ChainPrints(s: seq<Rune>)
    requires s != []
    ensures IsCat(Chain(s)) && WellMade(Chain(s)) && Print(Chain(s)) == Letters(s)
    decreases |s|
  {
    var n := |s| - 1;
    if n > 0 { ChainPrints(s[..n]); }
    assert IsPost(Atom(Char(s[n], 0)));
  }

  /** A chain is read with two places on the stacks. */
  lemma {:induction false} ChainFits(s: seq<Rune>)
    requires s != []
    ensures Fits(Chain(s), 0, 1) && Groups(Chain(s)) == 0
    decreases |s|
  {
    if |s| > 1 { ChainFits(s[..|s|-1]); }
  }

  /** It matches just where the runes stand. */
  lemma {:induction false} ChainMatches(s: seq<Rune>, text: seq<Rune>, i: nat, j: nat)
    requires s != [] && WellMade(Chain(s))
    ensures (i, j) in Lang(Chain(s), text) <==> i + |s| == j <= |text| && text[i..j] == s
    decreases |s|
  {
    var n := |s| - 1;
    if n == 0 {
      if i + 1 == j <= |text| { assert text[i..j] == [text[i]]; }
    } else {
      if j > 0 && i <= j - 1 <= |text| { ChainMatches(s[..n], text, i, j - 1); }
      forall k: nat | (i, k) in Lang(Chain(s[..n]), text) ensures i + n == k <= |text| { ChainMatches(s[..n], text, i, k); }
      if i + |s| == j <= |text| {
        LastRune(s, text, i, j);
        var k: nat := j - 1;
        if text[i..j] == s {
          assert (i, k) in Lang(Chain(s[..n]), text) && (k, j) in Lang(Atom(Char(s[n], 0)), text);
        }
      }
    }
  }

  lemma LastRune(s: seq<Rune>, text: seq<Rune>, i: nat, j: nat)
    requires s != [] && i + |s| == j <= |text|
    ensures text[i..j] == s <==> text[i..j-1] == s[..|s|-1] && text[j-1] == s[|s|-1]
  {
    var n := |s| - 1;
    var t := text[i..j];
    assert t == text[i..j-1] + [text[j-1]] && s == s[..n] + [s[n]];
    assert t[..n] == text[i..j-1] && t[n] == text[j-1];
  }

  /** A literal pattern without backslashes is lexed rune by rune. */
  lemma {:induction false} LiteralTokens(s: seq<Rune>, dot: Inst, tokens: seq<Token>, m: nat)
    requires m <= |s| && LexesAll(s, true, dot, 0, tokens, m) && BACKSLASH !in s
    ensures |tokens| == m && tokens == Letters(s[..m])
    decreases |tokens|
  {
    if tokens != [] {
      var n := |tokens| - 1;
      var k: nat :| k <= |s| && LexesAll(s, true, dot, 0, tokens[..n], k) && Lexes(s, true, dot, k, tokens[n], m);
      LiteralTokens(s, dot, tokens[..n], k);
      assert k < |s| && s[k] in s;
      assert m == k + 1 && tokens[n] == Operand(Char(s[k], 0));
      assert s[..m][..k] == s[..k];
    }
  }
}
