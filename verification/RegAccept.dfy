/** Which token strings the parser accepts: only those that an expression prints. */
module RegAccept {
  import opened RegProg
  import opened RegLang
  import opened RegParse

  // What has been read, as the grammar sees it: one level for each open parenthesis.

  /** A branch before a bar, the concatenation before the last item, and the last item, each if any. */
  datatype Level = Level(alt: seq<Exp>, cat: seq<Exp>, item: seq<Exp>)

  ghost predicate LevelOk(l: Level)
  {
    && |l.alt| <= 1 && |l.cat| <= 1 && |l.item| <= 1
    && (l.alt != [] ==> IsAlt(l.alt[0])) && (l.cat != [] ==> IsCat(l.cat[0])) && (l.item != [] ==> IsPost(l.item[0]))
  }

  function PrintOpt(s: seq<Exp>): seq<Token>
  {
    if s == [] then [] else Print(s[0])
  }

  function PrintLevel(l: Level): seq<Token>
  {
    (if l.alt == [] then [] else Print(l.alt[0]) + [Operator(OR)]) + PrintOpt(l.cat) + PrintOpt(l.item)
  }

  function PrintLevels(ls: seq<Level>): seq<Token>
  {
    if ls == [] then []
    else if |ls| == 1 then PrintLevel(ls[0])
    else PrintLevels(ls[..|ls|-1]) + [Operator(LBRA)] + PrintLevel(ls[|ls|-1])
  }

  /** The expression a level with an item stands for. */
  function Value(l: Level): Exp
    requires l.item != []
  {
    AltWith(l.alt, CatWith(l.cat, l.item[0]))
  }

  ghost predicate LevelsOk(ls: seq<Level>)
  {
    && |ls| > 0 && (forall k :: 0 <= k < |ls| ==> LevelOk(ls[k]))
    && (ls[|ls|-1].item == [] ==> ls[|ls|-1].cat == [])
    && (forall k :: 0 <= k < |ls| - 1 ==> ls[k].item == [])
  }

  lemma ValuePrints(l: Level)
    requires LevelOk(l) && l.item != []
    ensures IsAlt(Value(l)) && Print(Value(l)) == PrintLevel(l)
    ensures IsCat(CatWith(l.cat, l.item[0])) && Print(CatWith(l.cat, l.item[0])) == PrintOpt(l.cat) + PrintOpt(l.item)
  {
    var c := CatWith(l.cat, l.item[0]);
    assert !c.Alt?;
  }

  // What the parser's stacks count.

  function Binaries(ators: seq<Op>): nat
  {
    if ators == [] then 0
    else Binaries(ators[..|ators|-1]) + (if ators[|ators|-1] == CAT || ators[|ators|-1] == OR then 1 else 0)
  }

  function Opens(ators: seq<Op>): nat
  {
    if ators == [] then 0
    else Opens(ators[..|ators|-1]) + (if ators[|ators|-1] == LBRA then 1 else 0)
  }

  /** Operands that will be left when all binary operators have been applied. */
  function Count(p: Parse): int
  {
    |p.ands| - Binaries(p.ators)
  }

  /** Operands, and operators that will leave one. */
  function Work(p: Parse): int
  {
    |p.ands| + |p.ators| - 1 - Opens(p.ators)
  }

  function Expected(p: Parse): int
  {
    if p.lastwasand then 1 else 0
  }

  predicate Bottomed(p: Parse)
  {
    Sane(p) && |p.ators| > 0 && p.ators[0] == START1 && forall k :: 0 < k < |p.ators| ==> p.ators[k] != START1
  }

  lemma OneAtor(ators: seq<Op>, op: Op)
    ensures Binaries(ators + [op]) == Binaries(ators) + (if op == CAT || op == OR then 1 else 0)
    ensures Opens(ators + [op]) == Opens(ators) + (if op == LBRA then 1 else 0)
  {
    assert (ators + [op])[..|ators|] == ators;
  }

  /** One operator applied. */
  lemma ReduceCounts(p: Parse)
    requires Bottomed(p) && Reduce(p).Go?
    ensures var q := Reduce(p).p;
      && Bottomed(q) && |q.ators| == |p.ators| - 1 && q.ands != [] && Count(q) == Count(p)
      && Opens(q.ators) == Opens(p.ators) - (if p.ators[|p.ators|-1] == LBRA then 1 else 0)
  {
    var k := |p.ators| - 1;
    assert p.ators == p.ators[..k] + [p.ators[k]];
    OneAtor(p.ators[..k], p.ators[k]);
  }

  lemma {:induction false} OpensBound(ators: seq<Op>)
    requires |ators| > 0 && ators[0] == START1
    ensures Opens(ators) < |ators|
  {
    if |ators| > 1 {
      OpensBound(ators[..|ators|-1]);
    }
  }

  /** Evaluation keeps the count, leaves work where there was some, and closes one parenthesis or none. */
  lemma {:induction false} EvalCounts(p: Parse, pri: Op)
    requires Bottomed(p) && EvalUntil(p, pri).Go?
    ensures var q := EvalUntil(p, pri).p;
      && Bottomed(q) && Count(q) == Count(p) && (q.ands != [] || q == p)
      && (pri == RBRA ==> Opens(q.ators) == Opens(p.ators) - 1 && q.ands != [])
      && (pri != RBRA && Prec(pri) > Prec(LBRA) ==> Opens(q.ators) == Opens(p.ators))
      && (pri == START && Opens(p.ators) == 0 ==> q.ators == [START1])
    decreases |p.ators|
  {
    hide Reduce, Count, Opens;
    var k := |p.ators| - 1;
    if pri == RBRA || Prec(p.ators[k]) >= Prec(pri) {
      var q := Reduce(p).p;
      ReduceCounts(p);
      if p.ators[k] != LBRA {
        EvalCounts(q, pri);
      }
    }
  }

  ghost predicate Inv(p: Parse)
  {
    Bottomed(p) && p.nbra == Opens(p.ators)
  }

  lemma InfixCounts(p: Parse, t: Op)
    requires Inv(p) && (t == OR || t == CAT || IsPostfix(t)) && Infix(p, t).Go?
    ensures var q := Infix(p, t).p;
      && Inv(q) && q.nbra == p.nbra && Work(q) >= 1 && q.lastwasand == IsPostfix(t)
      && Count(q) == Count(p) - (if t == OR || t == CAT then 1 else 0)
  {
    hide EvalUntil, Opens, Binaries, Prec;
    Binds(t);
    EvalCounts(p, t);
    var r := EvalUntil(p, t).p;
    OneAtor(r.ators, t);
    OpensBound(r.ators);
  }

  lemma Binds(t: Op)
    requires t == OR || t == CAT || IsPostfix(t)
    ensures Prec(t) > Prec(LBRA) && t != RBRA && t != LBRA && t != START && t != START1
  {
  }

  lemma OperandCounts(p: Parse, e: Exp)
    requires Inv(p) && OperandStep(p, e).Go?
    ensures var q := OperandStep(p, e).p;
      && Inv(q) && q.nbra == p.nbra && Work(q) >= 1 && q.lastwasand && Count(q) == Count(p) + 1 - Expected(p)
  {
    hide Infix;
    if p.lastwasand { InfixCounts(p, CAT); }
    OpensBound(p.ators);
  }

  lemma OpenCounts(p: Parse)
    requires Inv(p) && OperatorStep(p, LBRA).Go?
    ensures var q := OperatorStep(p, LBRA).p;
      && Inv(q) && q.nbra == p.nbra + 1 && !q.lastwasand && Count(q) == Count(p) - Expected(p)
      && (Work(p) >= 1 || p.lastwasand ==> Work(q) >= 1)
  {
    hide Infix, Opens, Binaries, EvalUntil;
    if p.lastwasand {
      var r := Infix(p.(cursubid := p.cursubid + 1, nbra := p.nbra + 1), CAT).p;
      InfixKeeps(p, p.cursubid + 1, p.nbra + 1);
      InfixCounts(p, CAT);
      OneAtor(r.ators, LBRA);
    } else {
      OneAtor(p.ators, LBRA);
    }
  }

  lemma InfixKeeps(p: Parse, c: nat, n: int)
    requires Sane(p) && Infix(p.(cursubid := c, nbra := n), CAT).Go?
    ensures Infix(p, CAT).Go?
    ensures var q, r := Infix(p.(cursubid := c, nbra := n), CAT).p, Infix(p, CAT).p;
      q.ands == r.ands && q.ators == r.ators && |q.subids| == |r.subids| && q.nbra == n && q.lastwasand == r.lastwasand
  {
    EvalKeeps(p, CAT, c, n);
  }

  lemma CloseCounts(p: Parse)
    requires Inv(p) && OperatorStep(p, RBRA).Go?
    ensures var q := OperatorStep(p, RBRA).p;
      && Inv(q) && q.nbra == p.nbra - 1 && q.lastwasand && Count(q) == Count(p) && Work(q) >= 1 && p.nbra > 0
  {
    hide EvalUntil;
    var p' := p.(nbra := p.nbra - 1);
    EvalCounts(p', RBRA);
    OpensBound(EvalUntil(p', RBRA).p.ators);
  }

  /** The parser's state agrees with what has been read. */
  ghost predicate Agrees(p: Parse, ls: seq<Level>)
  {
    && LevelsOk(ls) && p.nbra == |ls| - 1 && Count(p) == Expected(p)
    && (p.lastwasand <==> ls[|ls|-1].item != [])
    && (ls[|ls|-1].item != [] || ls[|ls|-1].alt != [] ==> Work(p) >= 1)
  }

  /** An operator has been read where an operand was wanted: too few operands will be left. */
  ghost predicate Short(p: Parse)
  {
    Count(p) < Expected(p) && Work(p) >= 1
  }

  ghost predicate Tracked(p: Parse, seen: seq<Token>)
  {
    Inv(p) && (Short(p) || exists ls :: Agrees(p, ls) && PrintLevels(ls) == seen)
  }

  /** The levels after one more token; where the grammar does not allow it, there are none. */
  function Extend(ls: seq<Level>, t: Token): (r: seq<Level>)
    requires |ls| > 0
  {
    var n := |ls| - 1;
    var below, l := ls[..n], ls[n];
    var c := if l.item == [] then l.cat else [CatWith(l.cat, l.item[0])];
    match t
    case Operand(inst) => below + [Level(l.alt, c, [Atom(inst)])]
    case Operator(op) =>
      if op == LBRA then below + [Level(l.alt, c, []), Level([], [], [])]
      else if l.item == [] then []
      else if op == OR then below + [Level([Value(l)], [], [])]
      else if op == RBRA then (if n == 0 then [] else ls[..n-1] + [ls[n-1].(item := [Group(Value(l), 0)])])
      else below + [l.(item := [Postfix(op, l.item[0])])]
  }

  lemma {:induction false} PrintPush(ls: seq<Level>, l: Level)
    requires |ls| > 0
    ensures PrintLevels(ls + [l]) == PrintLevels(ls) + [Operator(LBRA)] + PrintLevel(l)
  {
    assert (ls + [l])[..|ls|] == ls;
  }

  lemma {:induction false} AppendTop(ls: seq<Level>, l: Level, t: seq<Token>)
    requires |ls| > 0 && PrintLevel(l) == PrintLevel(ls[|ls|-1]) + t
    ensures PrintLevels(ls[..|ls|-1] + [l]) == PrintLevels(ls) + t
  {
    hide PrintLevel;
    var n := |ls| - 1;
    var ls' := ls[..n] + [l];
    assert ls'[..n] == ls[..n] && ls'[n] == l;
  }

  lemma ExtendPrints(ls: seq<Level>, t: Token)
    requires LevelsOk(ls) && IsToken(t) && Extend(ls, t) != []
    ensures LevelsOk(Extend(ls, t)) && PrintLevels(Extend(ls, t)) == PrintLevels(ls) + [t]
  {
    hide IsAlt, IsCat, IsPost, Print, CatWith, AltWith, PrintLevels;
    var n := |ls| - 1;
    var l := ls[n];
    if l.item != [] { ValuePrints(l); }
    var c := if l.item == [] then l.cat else [CatWith(l.cat, l.item[0])];
    assert PrintOpt(c) == PrintOpt(l.cat) + PrintOpt(l.item);
    match t
    case Operand(inst) =>
      var l' := Level(l.alt, c, [Atom(inst)]);
      assert IsPost(Atom(inst)) && Print(Atom(inst)) == [t] by { AtomPrints(inst); }
      assert PrintLevel(l') == PrintLevel(l) + [t];
      AppendTop(ls, l', [t]);
    case Operator(op) =>
      if op == LBRA {
        ExtendOpen(ls, c);
      } else if op == OR {
        var l' := Level([Value(l)], [], []);
        assert PrintLevel(l') == PrintLevel(l) + [t];
        AppendTop(ls, l', [t]);
      } else if op == RBRA {
        ExtendClose(ls);
      } else {
        var l' := l.(item := [Postfix(op, l.item[0])]);
        assert IsPost(Postfix(op, l.item[0])) && Print(Postfix(op, l.item[0])) == Print(l.item[0]) + [t] by { PostfixPrints(op, l.item[0]); }
        assert PrintLevel(l') == PrintLevel(l) + [t];
        AppendTop(ls, l', [t]);
      }
  }

  lemma AtomPrints(inst: Inst)
    requires IsOperand(inst)
    ensures IsPost(Atom(inst)) && Print(Atom(inst)) == [Operand(inst)]
  {
  }

  lemma PostfixPrints(op: Op, e: Exp)
    requires IsPostfix(op) && IsPost(e)
    ensures IsPost(Postfix(op, e)) && Print(Postfix(op, e)) == Print(e) + [Operator(op)]
  {
  }

  lemma GroupPrints(e: Exp)
    requires IsAlt(e)
    ensures IsPost(Group(e, 0)) && Print(Group(e, 0)) == [Operator(LBRA)] + Print(e) + [Operator(RBRA)]
  {
  }

  lemma ExtendOpen(ls: seq<Level>, c: seq<Exp>)
    requires LevelsOk(ls) && |c| <= 1 && (c != [] ==> IsCat(c[0]))
    requires PrintOpt(c) == PrintOpt(ls[|ls|-1].cat) + PrintOpt(ls[|ls|-1].item)
    ensures var ls' := ls[..|ls|-1] + [Level(ls[|ls|-1].alt, c, []), Level([], [], [])];
      LevelsOk(ls') && PrintLevels(ls') == PrintLevels(ls) + [Operator(LBRA)]
  {
    hide IsAlt, IsCat, IsPost, Print, PrintLevels, PrintLevel, PrintOpt;
    var n := |ls| - 1;
    assert LevelOk(ls[n]);
    var l, e := Level(ls[n].alt, c, []), Level([], [], []);
    SamePrint(ls[n], l);
    OpenLevels(ls, l);
    AppendTop(ls, l, []);
    PrintPush(ls[..n] + [l], e);
    assert ls[..n] + [l] + [e] == ls[..n] + [l, e];
  }

  lemma SamePrint(l: Level, l': Level)
    requires l'.alt == l.alt && l'.item == [] && PrintOpt(l'.cat) == PrintOpt(l.cat) + PrintOpt(l.item)
    ensures PrintLevel(l') == PrintLevel(l) + [] && PrintLevel(Level([], [], [])) == []
  {
    hide Print;
  }

  /** The top level waits for what is in the parenthesis. */
  lemma OpenLevels(ls: seq<Level>, l: Level)
    requires LevelsOk(ls) && LevelOk(l) && l.item == []
    ensures LevelsOk(ls[..|ls|-1] + [l, Level([], [], [])])
  {
    hide LevelOk;
    assert LevelOk(Level([], [], [])) by { EmptyLevel(); }
  }

  lemma EmptyLevel()
    ensures LevelOk(Level([], [], []))
  {
  }

  /** A closed parenthesis becomes the item of the level below. */
  lemma CloseLevel(below: Level, l: Level)
    requires LevelOk(below) && LevelOk(l) && l.item != [] && below.item == []
    ensures var g := Group(Value(l), 0);
      && IsPost(g)
      && PrintLevel(below.(item := [g])) == PrintLevel(below) + ([Operator(LBRA)] + PrintLevel(l) + [Operator(RBRA)])
  {
    hide IsAlt, IsCat, IsPost, Print, CatWith, AltWith;
    ValuePrints(l);
    GroupPrints(Value(l));
  }

  lemma ExtendClose(ls: seq<Level>)
    requires LevelsOk(ls) && |ls| > 1 && ls[|ls|-1].item != []
    ensures var n := |ls| - 1;
      var ls' := ls[..n-1] + [ls[n-1].(item := [Group(Value(ls[n]), 0)])];
      LevelsOk(ls') && PrintLevels(ls') == PrintLevels(ls) + [Operator(RBRA)]
  {
    hide IsAlt, IsCat, IsPost, PrintLevels, PrintLevel, Value;
    var n := |ls| - 1;
    var l := ls[n-1].(item := [Group(Value(ls[n]), 0)]);
    var below := ls[..n];
    CloseLevel(ls[n-1], ls[n]);
    assert below[..n-1] == ls[..n-1] && below[n-1] == ls[n-1] && below + [ls[n]] == ls;
    PrintPush(below, ls[n]);
    AppendTop(below, l, [Operator(LBRA)] + PrintLevel(ls[n]) + [Operator(RBRA)]);
    var ls' := ls[..n-1] + [l];
    assert PrintLevels(ls') == PrintLevels(below) + ([Operator(LBRA)] + PrintLevel(ls[n]) + [Operator(RBRA)]);
    assert LevelsOk(ls');
  }

  /** One token keeps the parser's state tracked. */
  lemma TokenTracked(p: Parse, seen: seq<Token>, t: Token)
    requires Sane(p) && Tracked(p, seen) && IsToken(t) && TokenStep(p, t).Go?
    ensures Tracked(TokenStep(p, t).p, seen + [t])
  {
    hide Infix, OperandStep, OperatorStep, Count, Work, PrintLevels;
    var q := TokenStep(p, t).p;
    match t {
      case Operand(inst) => OperandCounts(p, Atom(inst));
      case Operator(op) =>
        if op == LBRA {
          OpenCounts(p);
        } else if op == RBRA {
          CloseCounts(p);
        } else {
          OperatorIsInfix(p, op);
          InfixCounts(p, op);
        }
    }
    if !Short(p) && !Short(q) {
      var ls :| Agrees(p, ls) && PrintLevels(ls) == seen;
      if Extend(ls, t) != [] {
        ExtendPrints(ls, t);
        assert Agrees(q, Extend(ls, t));
      }
    }
  }

  lemma OperatorIsInfix(p: Parse, op: Op)
    requires Sane(p) && op != LBRA && op != RBRA
    ensures OperatorStep(p, op) == Infix(p, op)
  {
  }

  lemma {:induction false} RunTracked(p: Parse, seen: seq<Token>, tokens: seq<Token>)
    requires Sane(p) && Tracked(p, seen)
    requires (forall k :: 0 <= k < |tokens| ==> IsToken(tokens[k])) && Run(p, tokens).Go?
    ensures Tracked(Run(p, tokens).p, seen + tokens)
    decreases |tokens|
  {
    hide TokenStep, Tracked;
    if tokens == [] {
      assert seen + tokens == seen;
    } else {
      assert seen + tokens == seen + [tokens[0]] + tokens[1..];
      TokenTracked(p, seen, tokens[0]);
      RunTracked(TokenStep(p, tokens[0]).p, seen + [tokens[0]], tokens[1..]);
    }
  }

  /** A parse that ends well had one operand for everything. */
  lemma FinishTracked(p: Parse, seen: seq<Token>)
    requires Sane(p) && Tracked(p, seen) && Finish(p).Go?
    ensures seen == [] || exists e :: IsAlt(e) && Print(e) == seen
  {
    hide Count, Opens, IsAlt, Print, Reduce;
    var q := EvalUntil(p, START).p;
    EvalCounts(p, START);
    FinishNbra(p);
    assert q.ators == [START1] && Count(q) == |q.ands| by { CountBottom(q); }
    if Work(p) >= 1 && q == p { CountBottom(p); }
    if !Short(p) {
      var ls :| Agrees(p, ls) && PrintLevels(ls) == seen;
      var l: Level := ls[0];
      if l.item != [] {
        ValuePrints(l);
      }
    }
  }

  lemma CountBottom(q: Parse)
    requires Bottomed(q) && q.ators == [START1]
    ensures Count(q) == |q.ands| == Work(q)
  {
    OneAtor([], START1);
    assert [] + [START1] == q.ators;
  }

  lemma FinishNbra(p: Parse)
    requires Sane(p) && Finish(p).Go?
    ensures p.nbra == 0 && EvalUntil(p, START).Go?
  {
    hide Reduce;
  }

  /** The parser accepts nothing but the empty pattern and what an expression prints. */
  lemma AcceptsOnlyExpressions(tokens: seq<Token>)
    requires (forall k :: 0 <= k < |tokens| ==> IsToken(tokens[k])) && Parsed(tokens).Go?
    ensures tokens == [] || exists e :: IsAlt(e) && Print(e) == tokens
  {
    hide Run, Finish;
    assert Tracked(Begin, []) by { BeginTracked(); }
    RunTracked(Begin, [], tokens);
    assert [] + tokens == tokens;
    FinishTracked(Run(Begin, tokens).p, tokens);
  }

  lemma BeginTracked()
    ensures Tracked(Begin, [])
  {
    CountBottom(Begin);
    OneAtor([], START1);
    assert [] + [START1] == Begin.ators;
    assert Agrees(Begin, [Level([], [], [])]);
    assert PrintLevels([Level([], [], [])]) == [];
  }
}
