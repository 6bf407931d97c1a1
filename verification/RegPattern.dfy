/** Compiling a pattern from its text, and searching with the result (regcomp1, lex and nextc in regcomp.c). */
module RegPattern {
  import opened Options
  import opened RegProg
  import opened RegLang
  import opened RegParse
  import opened RegAccept
  import opened RegExec
  import opened RegLex
  import opened RegComp
  import opened RegRoom
  import opened RegText

  datatype LexResult = LexEnd | LexToken(t: Token) | LexError(why: Reason)

  predicate ClassError(why: Reason)
  {
    why == MalformedClass || why == ClassTooLarge || why == TooManyClasses
  }

  class Lexer {
    const s: seq<Rune>
    var exprp: nat
    var lexdone: bool
    var nclass: nat

    constructor (pattern: seq<Rune>)
      ensures s == pattern && exprp == 0 && !lexdone && nclass == 0
    {
      s := pattern;
      exprp, lexdone, nclass := 0, false, 0;
    }

    method nextc() returns (rune: Rune, quoted: bool)
      requires exprp <= |s| && forall k :: 0 <= k < |s| ==> s[k] != 0
      modifies `exprp, `lexdone
      ensures old(lexdone) ==> rune == 0 && lexdone && exprp == old(exprp)
      ensures !old(lexdone) ==> NextRune(rune, quoted, exprp) == Next(s, old(exprp)) && (lexdone ==> rune == 0)
      ensures !old(lexdone) && rune != 0 ==> !lexdone
      ensures exprp <= |s|
    {
      if lexdone {
        return 0, true;
      }
      rune := 0;
      if exprp < |s| {
        rune := s[exprp];
        exprp := exprp + 1;
      }
      if rune == BACKSLASH {
        rune := 0;
        if exprp < |s| {
          rune := s[exprp];
          exprp := exprp + 1;
        }
        return rune, true;
      }
      if rune == 0 {
        lexdone := true;
      }
      return rune, false;
    }

    /** The ranges of a class, with the first rune and the first ranges at hand. */
    method readRanges(first: Rune, firstQuoted: bool, start: seq<Range>) returns (why: Option<Reason>, ranges: seq<Range>)
      requires exprp <= |s| && (lexdone ==> first == 0) && forall k :: 0 <= k < |s| ==> s[k] != 0
      modifies `exprp, `lexdone
      ensures exprp <= |s|
      ensures var text := ReadRanges(s, NextRune(first, firstQuoted, old(exprp)), start);
        if why.Some? then text == Bad(why.value) && ClassError(why.value) else text == Ranges(ranges, exprp) && !lexdone
    {
      var rune, quoted := first, firstQuoted;
      ranges := start;
      ghost var text := ReadRanges(s, NextRune(rune, quoted, exprp), ranges);
      while 2 * |ranges| < NCCRUNE - 1
        invariant exprp <= |s| && (lexdone ==> rune == 0)
        invariant ReadRanges(s, NextRune(rune, quoted, exprp), ranges) == text
        decreases |s| - exprp, if rune == 0 then 0 else 1
      {
        if rune == 0 {
          return Some(MalformedClass), [];
        }
        if !quoted && rune == RBRACKET {
          return None, ranges;
        }
        if !quoted && rune == MINUS {
          if ranges == [] {
            return Some(MalformedClass), [];
          }
          rune, quoted := nextc();
          if (!quoted && rune == RBRACKET) || rune == 0 {
            return Some(MalformedClass), [];
          }
          var n := |ranges| - 1;
          ranges := ranges[n := (ranges[n].0, rune)];
        } else {
          ranges := ranges + [(rune, rune)];
        }
        rune, quoted := nextc();
      }
      why := Some(ClassTooLarge);
    }

    /** A class whose bracket has been read. */
    method bldcclass() returns (r: LexResult)
      requires exprp <= |s| && !lexdone && forall k :: 0 <= k < |s| ==> s[k] != 0
      modifies this
      ensures exprp <= |s|
      ensures r.LexToken? ==> !lexdone && IsClass(r.t) && IsToken(r.t) && nclass == old(nclass) + 1
      ensures var (negated, text) := ReadClass(s, old(exprp));
        match r
        case LexEnd => false
        case LexError(why) => if old(nclass) >= NCLASS then why == TooManyClasses else text == Bad(why) && ClassError(why)
        case LexToken(t) =>
          && old(nclass) < NCLASS && text.Ranges? && exprp == text.p
          && (if negated then t.inst.NClass? else t.inst.Class?) && SameRunes(t.inst.spans, text.ranges)
    {
      hide ReadRanges;
      if nclass >= NCLASS {
        return LexError(TooManyClasses);
      }
      nclass := nclass + 1;
      var negated := false;
      var ranges: seq<Range> := [];
      var rune, quoted := nextc();
      if !quoted && rune == CARET {
        negated := true;
        rune, quoted := nextc();
        ranges := [(NL, NL)];
      }
      var why;
      why, ranges := readRanges(rune, quoted, ranges);
      if why.Some? {
        return LexError(why.value);
      }
      var a := new Range[|ranges|](i requires 0 <= i < |ranges| => ranges[i]);
      assert a[..] == ranges;
      sortRanges(a);
      SameMultisetRunes(a[..], ranges);
      var spans := mergeRanges(a[..]);
      return LexToken(Operand(if negated then NClass(spans, 0) else Class(spans, 0)));
    }

    method lex(literal: bool, dot: Inst) returns (r: LexResult)
      requires exprp <= |s| && !lexdone && (forall k :: 0 <= k < |s| ==> s[k] != 0) && (dot == Any(0) || dot == AnyNl(0))
      modifies this
      ensures exprp <= |s|
      ensures match r
        case LexEnd => AtEnd(s, old(exprp))
        case LexError(why) => ClassError(why) && ClassFails(s, literal, old(exprp), old(nclass), why)
        case LexToken(t) =>
          && !lexdone && IsToken(t) && Lexes(s, literal, dot, old(exprp), t, exprp)
          && nclass == old(nclass) + (if IsClass(t) then 1 else 0)
    {
      var yyrune, quoted := nextc();
      if literal || quoted {
        if yyrune == 0 {
          return LexEnd;
        }
        return LexToken(Operand(Char(yyrune, 0)));
      }
      if yyrune == 0 {
        return LexEnd;
      }
      if yyrune == LBRACKET {
        r := bldcclass();
        return;
      }
      return LexToken(Plain(yyrune, dot));
    }
  }

  /** The tokens read so far and what the parser makes of them. */
  ghost predicate ReadSoFar(s: seq<Rune>, literal: bool, dot: Inst, tokens: seq<Token>, p: nat)
  {
    p <= |s| && LexesAll(s, literal, dot, 0, tokens, p) && forall k :: 0 <= k < |tokens| ==> IsToken(tokens[k])
  }

  /** The program matches just the spans that e does. */
  ghost predicate MatchesAs(prog: seq<Inst>, start: nat, e: Exp)
  {
    WellMade(e) && forall text: seq<Rune>, i: nat, j: nat :: Matches(prog, text, start, i, j) <==> (i, j) in Lang(e, text)
  }

  /** The program matches what the expression that prints these tokens means, and there is one unless there are none. */
  ghost predicate Compiles(prog: seq<Inst>, start: nat, rank: seq<nat>, tokens: seq<Token>)
  {
    && Runnable(prog, start, rank)
    && (tokens == [] ==> forall text: seq<Rune>, i: nat, j: nat :: Matches(prog, text, start, i, j) <==> i == j <= |text|)
    && (tokens != [] ==> exists e :: IsAlt(e) && Print(e) == tokens)
    && (forall e :: IsAlt(e) && Print(e) == tokens ==> MatchesAs(prog, start, e))
  }

  /** The program needs just the room of the expression the tokens are parsed to, which is the one that prints them if that has no stacked postfix operators. */
  ghost predicate NeedsRoom(prog: seq<Inst>, tokens: seq<Token>)
  {
    && (tokens == [] ==> AlwaysRoomy(prog, 2))
    && (tokens != [] ==> ParsesWhole(Parsed(tokens)) && RoomAs(prog, Parsed(tokens).p.ands[0].left))
    && (forall e :: IsAlt(e) && Print(e) == tokens && Once(e) ==> RoomAs(prog, e))
  }

  lemma ProgramCompiles(prog: seq<Inst>, start: nat, rank: seq<nat>, tokens: seq<Token>)
    requires (forall k :: 0 <= k < |tokens| ==> IsToken(tokens[k])) && Parsed(tokens).Go? && Closed(Parsed(tokens).p.ands)
    requires ProgramFor(prog, start, rank, Parsed(tokens).p.ands[0])
    ensures Compiles(prog, start, rank, tokens)
  {
    hide Runnable, Matches, Run, Finish, IsAlt, Print;
    AcceptsOnlyExpressions(tokens);
    var top := Parsed(tokens).p.ands[0];
    if tokens == [] {
      assert top == Atom(End) by { EmptyParsed(); }
    }
    forall e | IsAlt(e) && Print(e) == tokens ensures MatchesAs(prog, start, e) {
      ParsedMeansTheSame(e);
    }
  }

  lemma ProgramNeeds(prog: seq<Inst>, start: nat, rank: seq<nat>, tokens: seq<Token>)
    requires (forall k :: 0 <= k < |tokens| ==> IsToken(tokens[k])) && Parsed(tokens).Go? && Closed(Parsed(tokens).p.ands)
    requires ProgramFor(prog, start, rank, Parsed(tokens).p.ands[0])
    ensures NeedsRoom(prog, tokens)
  {
    hide Runnable, Matches, Run, Finish, IsAlt, Print, AlwaysRoomy, LoopsTake, Room, Bare, Once, Same;
    AcceptsOnlyExpressions(tokens);
    var top := Parsed(tokens).p.ands[0];
    if tokens == [] {
      assert top == Atom(End) by { EmptyParsed(); }
    } else {
      var e :| IsAlt(e) && Print(e) == tokens;
      ParsedMeansTheSame(e);
    }
    forall e | IsAlt(e) && Print(e) == tokens && Once(e) ensures RoomAs(prog, e) {
      ParsedMeansTheSame(e);
      PrintsSome(e);
      ParsedRoom(top.left, e);
    }
  }

  lemma {:induction false} PrintsSome(e: Exp)
    ensures Print(e) != []
  {
    match e
    case Atom(_) =>
    case Group(_, _) =>
    case Cat(a, b) => PrintsSome(a);
    case Alt(_, _) =>
    case Postfix(_, _) =>
  }

  lemma EmptyParsed()
    ensures Parsed([]).Go? && |Parsed([]).p.ands| == 1 && Parsed([]).p.ands[0] == Atom(End)
  {
  }

  /** The errors that say a pattern is not an expression. */
  predicate GrammarError(why: Reason)
  {
    why == MissingOperand || why == UnmatchedRight || why == UnmatchedLeft || why == UnknownOperator
  }

  /** No expression prints tokens that begin with these, which stopped the parser. */
  lemma {:induction false} StoppedIsNoExpression(tokens: seq<Token>, e: Exp)
    requires IsAlt(e) && tokens <= Print(e)
    ensures Run(Begin, tokens).Stop? ==> !GrammarError(Run(Begin, tokens).why)
    ensures tokens == Print(e) && Parsed(tokens).Stop? ==> !GrammarError(Parsed(tokens).why)
  {
    hide Run, Finish;
    ParsedMeansTheSame(e);
    var rest := Print(e)[|tokens|..];
    assert tokens + rest == Print(e);
    RunAppend(Begin, tokens, rest);
  }

  /** Why reading the pattern ended: at its end, at the first token the parser refuses, or at the first class that fails. */
  ghost predicate Ended(s: seq<Rune>, literal: bool, tokens: seq<Token>, p: nat, whole: bool, status: Status)
    requires p <= |s|
  {
    if whole then
      AtEnd(s, p) && status == match Parsed(tokens) { case Go(_) => Fine case Stop(why) => Failed(why) }
    else if Run(Begin, tokens).Go? then
      status.Failed? && ClassFails(s, literal, p, Classes(tokens), status.why)
    else
      && status.Failed? && Run(Begin, tokens) == Stop(status.why)
      && tokens != [] && Run(Begin, tokens[..|tokens|-1]).Go?
  }

  /** The law of a written expression: the program is for it as it is meant, or the tables were too small for it. */
  ghost predicate AsWritten(s: seq<Rune>, dot: Inst, status: Status, prog: seq<Inst>, start: nat)
  {
    forall e :: IsAlt(e) && Writes(e, dot, s) ==> if status == Fine then MatchesAs(prog, start, Meant(e)) else TooMuch(e, status.why)
  }

  lemma WrittenCompiles(s: seq<Rune>, dot: Inst, e: Exp, tokens: seq<Token>, p: nat, whole: bool, status: Status,
                        prog: seq<Inst>, start: nat, rank: seq<nat>)
    requires (dot == Any(0) || dot == AnyNl(0)) && IsAlt(e) && Writes(e, dot, s)
    requires ReadSoFar(s, false, dot, tokens, p) && Ended(s, false, tokens, p, whole, status)
    requires status == Fine ==> whole && Compiles(prog, start, rank, tokens)
    ensures if status == Fine then MatchesAs(prog, start, Meant(e)) else TooMuch(e, status.why)
  {
    hide IsAlt, Writes, TokenAt, LexesAll, Run, Finish, Compiles, HasRoom, AtEnd, ClassFails, Same, MatchesAs, Lang;
    AltWellMade(e);
    assert s[0..|s|] == s;
    var at := WrittenTokens(s, dot, 0, |s|, e);
    var f := BeginsExpression(s, dot, e, tokens, p, at);
    var all, n := Print(Meant(e)), |tokens|;
    if n < |all| { assert TokenAt(s, dot, at[n], all[n], at[n+1]); }
    ParsedMeansTheSame(f);
    if whole {
      if n < |all| { NotAtEnd(s, dot, p, all[n], at[n+1]); }
      assert tokens == Print(f);
      if status == Fine { CompiledSame(prog, start, rank, tokens, f, Meant(e)); }
    } else if Run(Begin, tokens).Go? {
      ClassTooMuch(s, dot, e, p, n, at, Classes(tokens), status.why);
    } else {
      var rest := Print(f)[n..];
      assert tokens + rest == Print(f);
      RunAppend(Begin, tokens, rest);
    }
  }

  lemma AllWritten(s: seq<Rune>, dot: Inst, tokens: seq<Token>, p: nat, whole: bool, status: Status, prog: seq<Inst>, start: nat, rank: seq<nat>)
    requires dot == Any(0) || dot == AnyNl(0)
    requires ReadSoFar(s, false, dot, tokens, p) && Ended(s, false, tokens, p, whole, status)
    requires status == Fine ==> whole && Compiles(prog, start, rank, tokens)
    ensures AsWritten(s, dot, status, prog, start)
  {
    hide ReadSoFar, Ended, Compiles, MatchesAs, TooMuch, IsAlt, Writes;
    forall e | IsAlt(e) && Writes(e, dot, s) ensures if status == Fine then MatchesAs(prog, start, Meant(e)) else TooMuch(e, status.why) {
      WrittenCompiles(s, dot, e, tokens, p, whole, status, prog, start, rank);
    }
  }

  /** A literal pattern without backslashes always compiles, and is found just where its runes stand. */
  lemma LiteralCompiles(s: seq<Rune>, dot: Inst, tokens: seq<Token>, p: nat, whole: bool, status: Status,
                        prog: seq<Inst>, start: nat, rank: seq<nat>)
    requires IsText(s) && s != [] && BACKSLASH !in s
    requires ReadSoFar(s, true, dot, tokens, p) && Ended(s, true, tokens, p, whole, status)
    requires status == Fine ==> whole && Compiles(prog, start, rank, tokens)
    ensures status == Fine
    ensures forall text: seq<Rune>, i: nat, j: nat :: Matches(prog, text, start, i, j) <==> i + |s| == j <= |text| && text[i..j] == s
  {
    hide IsAlt, IsCat, LexesAll, Run, Finish, Compiles, Same, Lang, Matches, Chain, Print, Letters;
    LiteralTokens(s, dot, tokens, p);
    var f := Chain(s);
    ChainPrints(s);
    ChainFits(s);
    assert IsAlt(f) by { ChainIsAlt(s); }
    ParsedMeansTheSame(f);
    if whole {
      LiteralEnd(s, p);
      assert s[..p] == s;
      CompiledAs(prog, start, rank, tokens, f);
      forall text: seq<Rune>, i: nat, j: nat ensures Matches(prog, text, start, i, j) <==> i + |s| == j <= |text| && text[i..j] == s {
        ChainMatches(s, text, i, j);
      }
    } else {
      var rest := Letters(s)[p..];
      assert tokens + rest == Letters(s);
      RunAppend(Begin, tokens, rest);
      assert false;
    }
  }

  lemma ChainIsAlt(s: seq<Rune>)
    requires s != [] && IsCat(Chain(s))
    ensures IsAlt(Chain(s))
  {
  }

  lemma LiteralEnd(s: seq<Rune>, p: nat)
    requires p <= |s| && AtEnd(s, p) && IsText(s) && BACKSLASH !in s
    ensures p == |s|
  {
    if p < |s| { assert s[p] in s; }
  }

  lemma CompiledAs(prog: seq<Inst>, start: nat, rank: seq<nat>, tokens: seq<Token>, f: Exp)
    requires Compiles(prog, start, rank, tokens) && IsAlt(f) && Print(f) == tokens
    ensures MatchesAs(prog, start, f)
  {
    hide Runnable, Matches, IsAlt, Print, Lang;
  }

  lemma {:induction false} AltWellMade(e: Exp)
    requires IsAlt(e) || IsCat(e) || IsPost(e)
    ensures WellMade(e)
  {
    Levels(e);
    match e
    case Atom(_) =>
    case Group(sub, _) => AltWellMade(sub);
    case Cat(a, b) => AltWellMade(a); AltWellMade(b);
    case Alt(a, b) => AltWellMade(a); AltWellMade(b);
    case Postfix(_, sub) => AltWellMade(sub);
  }

  lemma NotAtEnd(s: seq<Rune>, dot: Inst, p: nat, t: Token, q: nat)
    requires TokenAt(s, dot, p, t, q)
    ensures p <= |s| && !AtEnd(s, p)
  {
  }

  lemma CompiledSame(prog: seq<Inst>, start: nat, rank: seq<nat>, tokens: seq<Token>, f: Exp, e: Exp)
    requires Compiles(prog, start, rank, tokens) && IsAlt(f) && Print(f) == tokens && Same(f, e)
    ensures MatchesAs(prog, start, e)
  {
    hide Compiles, Matches, IsAlt, Print, Lang;
    CompiledAs(prog, start, rank, tokens, f);
  }

  lemma ClassTooMuch(s: seq<Rune>, dot: Inst, e: Exp, p: nat, n: nat, at: seq<nat>, classes: nat, why: Reason)
    requires TokensAt(s, dot, Print(Meant(e)), at) && n < |at| && p == at[n] && p <= |s| && at[|at|-1] == |s|
    requires classes == Classes(Print(Meant(e))[..n]) && ClassFails(s, false, p, classes, why)
    ensures TooMuch(e, why)
  {
    var all := Print(Meant(e));
    hide Print, Meant, Lexes, HasRoom;
    if n < |all| {
      assert TokenAt(s, dot, at[n], all[n], at[n+1]);
      ClassesGrow(all, n);
    }
  }

  /**
   * Compiles a pattern.  A pattern that compiles is an expression, or empty, and the program matches
   * just the spans that the expression does; one that fails on its grammar is not an expression.
   */
  method regcomp1(s: seq<Rune>, literal: bool, dot: Inst)
    returns (status: Status, prog: seq<Inst>, start: nat, ghost rank: seq<nat>, ghost tokens: seq<Token>, ghost whole: bool)
    requires IsText(s) && (dot == Any(0) || dot == AnyNl(0))
    ensures exists p :: ReadSoFar(s, literal, dot, tokens, p) && Ended(s, literal, tokens, p, whole, status)
    ensures status == Fine ==> whole && Compiles(prog, start, rank, tokens) && NeedsRoom(prog, tokens)
    ensures !literal ==> AsWritten(s, dot, status, prog, start)
    ensures |prog| <= 2 * |tokens| + 1 && |tokens| <= |s|
    ensures status.Failed? && GrammarError(status.why) && !whole ==> forall e :: IsAlt(e) ==> !(tokens <= Print(e))
    ensures status.Failed? && GrammarError(status.why) && whole ==> forall e :: IsAlt(e) ==> tokens != Print(e)
  {
    hide Run, Finish, TokenStep, LexesAll, Lexes, AtEnd, Compiles, NeedsRoom, AsWritten, IsAlt, Print, Closed, ProgramFor;
    var lexer := new Lexer(s);
    var c := new Compiler(5 + 6 * |s|);
    prog, start, rank, tokens, whole := [], 0, [], [], false;
    status := Fine;
    ghost var end := 0;
    assert ReadSoFar(s, literal, dot, [], 0) by { NothingLexed(s, literal, dot); }
    assert Run(Begin, []) == Go(Begin) by { RunNone(); }
    while true
      invariant lexer.s == s && fresh(lexer) && fresh(c) && c.Valid() && !lexer.lexdone
      invariant ReadSoFar(s, literal, dot, tokens, lexer.exprp)
      invariant c.Ahead() <= 2 * |tokens| && |tokens| <= lexer.exprp && c.room == 5 + 6 * |s|
      invariant Run(Begin, tokens) == Go(c.Abs()) && lexer.nclass == Classes(tokens)
      invariant status == Fine && !whole && prog == []
      decreases |s| - lexer.exprp
    {
      ghost var p := lexer.exprp;
      var r := lexer.lex(literal, dot);
      match r {
        case LexEnd =>
          whole, end := true, p;
          break;
        case LexError(why) =>
          if !literal { AllWritten(s, dot, tokens, p, false, Failed(why), [], 0, []); }
          return Failed(why), [], 0, [], tokens, false;
        case LexToken(t) =>
          LexesOneMore(s, literal, dot, 0, tokens, p, t, lexer.exprp);
          LexesMoves(s, literal, dot, p, t, lexer.exprp);
          RunAppend(Begin, tokens, [t]);
          RunOne(c.Abs(), t);
          OneMoreClass(tokens, t);
          assert (tokens + [t])[..|tokens|] == tokens;
          tokens := tokens + [t];
          assert ReadSoFar(s, literal, dot, tokens, lexer.exprp);
          status := c.token(t);
          if status != Fine {
            forall e | IsAlt(e) && tokens <= Print(e) ensures !GrammarError(status.why) { StoppedIsNoExpression(tokens, e); }
            if !literal { AllWritten(s, dot, tokens, lexer.exprp, false, status, prog, start, rank); }
            return;
          }
      }
    }
    if Parsed(tokens).Go? { ParsedShape(tokens); }
    status, start, rank := c.close();
    if status == Fine {
      prog := c.code;
      ProgramCompiles(prog, start, rank, tokens);
      ProgramNeeds(prog, start, rank, tokens);
    } else {
      forall e | IsAlt(e) && tokens == Print(e) ensures !GrammarError(status.why) { StoppedIsNoExpression(tokens, e); }
    }
    if !literal { AllWritten(s, dot, tokens, end, true, status, prog, start, rank); }
  }

  lemma OneMoreClass(tokens: seq<Token>, t: Token)
    ensures Classes(tokens + [t]) == Classes(tokens) + (if IsClass(t) then 1 else 0)
  {
    assert (tokens + [t])[..|tokens|] == tokens;
  }

  lemma NothingLexed(s: seq<Rune>, literal: bool, dot: Inst)
    ensures ReadSoFar(s, literal, dot, [], 0)
  {
  }

  lemma RunNone()
    ensures Run(Begin, []) == Go(Begin)
  {
  }

  lemma LexesMoves(s: seq<Rune>, literal: bool, dot: Inst, p: nat, t: Token, q: nat)
    requires p <= |s| && Lexes(s, literal, dot, p, t, q)
    ensures p < q <= |s|
  {
  }

  /** The simulator on a compiled pattern finds the leftmost, then longest, span its expression matches, or says there is none. */
  lemma SearchFindsLongest(prog: seq<Inst>, start: nat, rank: seq<nat>, tokens: seq<Token>, e: Exp, text: seq<Rune>, mp: Match)
    requires Compiles(prog, start, rank, tokens) && LeftmostLongest(prog, text, start, mp)
    requires IsAlt(e) && Print(e) == tokens
    ensures WellMade(e)
    ensures mp.Span? <==> exists i: nat, j: nat :: (i, j) in Lang(e, text)
    ensures mp.Span? ==> (mp.sp, mp.ep) in Lang(e, text)
    ensures mp.Span? ==> forall i: nat, j: nat :: (i, j) in Lang(e, text) ==> mp.sp < i || (mp.sp == i && j <= mp.ep)
  {
    hide Runnable, Matches, Lang, IsAlt, Print;
    assert MatchesAs(prog, start, e);
    forall i: nat, j: nat | (i, j) in Lang(e, text) ensures AtLeast(mp, i, j) {
      assert Matches(prog, text, start, i, j);
    }
  }

  /**
   * A search with the program of an expression never fails for lack of room if no postfix operators are stacked, every
   * loop takes a character and the expression needs less room than the larger lists have.
   */
  lemma SearchHasRoom(prog: seq<Inst>, tokens: seq<Token>, e: Exp)
    requires NeedsRoom(prog, tokens) && IsAlt(e) && Print(e) == tokens && Once(e)
    ensures AlwaysRoomy(prog, 5 * LISTSIZE - 2) <==> LoopsTake(e) && Room(e) < 5 * LISTSIZE - 2
  {
    hide AlwaysRoomy, Room, LoopsTake, IsAlt, Print, Once;
    assert RoomAs(prog, e);
  }

  /** The closures of one character have room on the small lists already. */
  lemma ClosureHasRoom(prog: seq<Inst>, inst: Inst, op: Op)
    requires IsOperand(inst) && !MayPass(inst) && IsPostfix(op) && NeedsRoom(prog, [Operand(inst), Operator(op)])
    ensures AlwaysRoomy(prog, LISTSIZE - 2)
  {
    hide AlwaysRoomy, Run, Finish, Room, LoopsTake;
    var e := Postfix(op, Atom(inst));
    assert Print(e) == [Operand(inst), Operator(op)] && IsPost(e) && Once(e) by { ClosurePrint(inst, op); }
    PostIsAlt(e);
    assert RoomAs(prog, e);
    ClosureRoom(inst, op);
  }

  lemma ClosurePrint(inst: Inst, op: Op)
    requires IsOperand(inst) && IsPostfix(op)
    ensures var e := Postfix(op, Atom(inst)); Print(e) == [Operand(inst), Operator(op)] && IsPost(e) && Once(e)
  {
    assert Print(Postfix(op, Atom(inst))) == [Operand(inst)] + [Operator(op)];
    assert IsPost(Atom(inst)) && Once(Atom(inst));
  }

  lemma ClosureRoom(inst: Inst, op: Op)
    requires IsOperand(inst) && !MayPass(inst) && IsPostfix(op)
    ensures var e := Postfix(op, Atom(inst)); LoopsTake(e) && Room(e) <= 6
  {
    assert FirstCost(Atom(inst), 0) == 0 && RoomOf(Atom(inst), 0) == 1;
    assert LoopCost(Atom(inst), 0) == 1 && RoomOf(Atom(inst), 1) == 1;
    assert LoopsTake(Atom(inst)) && !MayBeEmpty(Atom(inst));
  }

  /** Stacked operators: a+? is applied as (a?)+, a loop that may take nothing, though no loop of it as written does. */
  lemma StackedLoop(prog: seq<Inst>, cap: nat)
    requires NeedsRoom(prog, [Operand(Char(97, 0)), Operator(PLUS), Operator(QUEST)])
    ensures var e := Postfix(QUEST, Postfix(PLUS, Atom(Char(97, 0))));
      IsAlt(e) && Print(e) == [Operand(Char(97, 0)), Operator(PLUS), Operator(QUEST)] && LoopsTake(e)
    ensures !AlwaysRoomy(prog, cap)
  {
    hide AlwaysRoomy, Room, Run, Finish, ParsesWhole;
    var x := Atom(Char(97, 0));
    StackedParse(x.inst);
    StackedPrint(x);
    assert RoomAs(prog, Postfix(PLUS, Postfix(QUEST, x)));
  }

  lemma StackedPrint(x: Exp)
    requires x.Atom? && x.inst.Char?
    ensures var e := Postfix(QUEST, Postfix(PLUS, x));
      IsAlt(e) && Print(e) == [Operand(x.inst), Operator(PLUS), Operator(QUEST)] && LoopsTake(e)
    ensures !LoopsTake(Postfix(PLUS, Postfix(QUEST, x)))
  {
    assert [Operand(x.inst)] + [Operator(PLUS)] + [Operator(QUEST)] == [Operand(x.inst), Operator(PLUS), Operator(QUEST)];
    assert Print(Postfix(PLUS, x)) == [Operand(x.inst)] + [Operator(PLUS)];
    assert IsPost(x) && IsPost(Postfix(PLUS, x));
    PostIsAlt(Postfix(QUEST, Postfix(PLUS, x)));
  }

  lemma PostIsAlt(e: Exp)
    requires IsPost(e)
    ensures IsAlt(e)
  {
    assert IsCat(e);
  }
}
