/** The operator-precedence parser of regcomp.c, over expressions in place of code fragments. */
module RegParse {
  import opened RegProg
  import opened RegLang

  const NSTACK: nat := 20
  const NSUBEXP: nat := 32

  /** The two stacks, the sub-expression ids parallel to the operators, and the counters. */
  datatype Parse = Parse(ands: seq<Exp>, ators: seq<Op>, subids: seq<nat>, cursubid: nat, nbra: int, lastwasand: bool)

  /** The errors of rcerror; the last three come from reading a character class. */
  datatype Reason =
    | MissingOperand | UnmatchedRight | UnmatchedLeft | UnknownOperator
    | TooManySubs | StackOverflow
    | MalformedClass | ClassTooLarge | TooManyClasses

  datatype Outcome = Stop(why: Reason) | Go(p: Parse)

  predicate Sane(p: Parse)
  {
    |p.subids| == |p.ators| && |p.ands| <= NSTACK
  }

  function PushAnd(p: Parse, e: Exp): Outcome
  {
    if |p.ands| >= NSTACK then Stop(StackOverflow) else Go(p.(ands := p.ands + [e]))
  }

  function PushAtor(p: Parse, op: Op): Outcome
  {
    if |p.ators| >= NSTACK then Stop(StackOverflow)
    else Go(p.(ators := p.ators + [op], subids := p.subids + [p.cursubid]))
  }

  /** Applies the operator on top of the stack. */
  function Reduce(p: Parse): (r: Outcome)
    requires Sane(p) && |p.ators| > 0
    ensures r.Go? ==> Sane(r.p) && r.p.ators == p.ators[..|p.ators|-1]
  {
    var n, k := |p.ands|, |p.ators| - 1;
    var op := p.ators[k];
    var q := p.(ators := p.ators[..k], subids := p.subids[..k]);
    if op == START1 || op == START || op == RBRA then Stop(UnknownOperator)
    else if n < 1 || ((op == OR || op == CAT) && n < 2) then Stop(MissingOperand)
    else if op == LBRA then Go(q.(ands := p.ands[..n-1] + [Group(p.ands[n-1], p.subids[k])]))
    else if op == OR then Go(q.(ands := p.ands[..n-2] + [Alt(p.ands[n-2], p.ands[n-1])]))
    else if op == CAT then Go(q.(ands := p.ands[..n-2] + [Cat(p.ands[n-2], p.ands[n-1])]))
    else Go(q.(ands := p.ands[..n-1] + [Postfix(op, p.ands[n-1])]))
  }

  /** Applies operators while they bind at least as tightly as pri, at most to the first left parenthesis. */
  function EvalUntil(p: Parse, pri: Op): (r: Outcome)
    requires Sane(p)
    ensures r.Go? ==> Sane(r.p) && r.p.cursubid == p.cursubid && r.p.nbra == p.nbra && r.p.lastwasand == p.lastwasand
    decreases |p.ators|
  {
    var k := |p.ators| - 1;
    if k < 0 then Stop(UnknownOperator)
    else if pri == RBRA || Prec(p.ators[k]) >= Prec(pri) then
      match Reduce(p)
      case Stop(why) => Stop(why)
      case Go(q) => if p.ators[k] == LBRA then Go(q) else EvalUntil(q, pri)
    else Go(p)
  }

  /** An operator other than a left parenthesis. */
  function Infix(p: Parse, t: Op): (r: Outcome)
    requires Sane(p)
    ensures r.Go? ==> Sane(r.p)
  {
    match EvalUntil(p, t)
    case Stop(why) => Stop(why)
    case Go(q) =>
      var r := if t == RBRA then Go(q) else PushAtor(q, t);
      if r.Go? then Go(r.p.(lastwasand := IsPostfix(t) || t == RBRA)) else r
  }

  function OperatorStep(p: Parse, t: Op): (r: Outcome)
    requires Sane(p)
    ensures r.Go? ==> Sane(r.p)
  {
    if t == RBRA && p.nbra - 1 < 0 then Stop(UnmatchedRight)
    else if t == LBRA then
      if p.cursubid + 1 >= NSUBEXP then Stop(TooManySubs)
      else
        var q := p.(cursubid := p.cursubid + 1, nbra := p.nbra + 1);
        var r := if q.lastwasand then Infix(q, CAT) else Go(q);
        if r.Stop? then r
        else
          var s := PushAtor(r.p, LBRA);
          if s.Go? then Go(s.p.(lastwasand := false)) else s
    else Infix(if t == RBRA then p.(nbra := p.nbra - 1) else p, t)
  }

  function OperandStep(p: Parse, e: Exp): (r: Outcome)
    requires Sane(p)
    ensures r.Go? ==> Sane(r.p)
  {
    var q := if p.lastwasand then Infix(p, CAT) else Go(p);
    if q.Stop? then q
    else
      var r := PushAnd(q.p, e);
      if r.Go? then Go(r.p.(lastwasand := true)) else r
  }

  function TokenStep(p: Parse, t: Token): (r: Outcome)
    requires Sane(p)
    ensures r.Go? ==> Sane(r.p)
  {
    match t
    case Operand(inst) => OperandStep(p, Atom(inst))
    case Operator(op) => OperatorStep(p, op)
  }

  function Run(p: Parse, tokens: seq<Token>): (r: Outcome)
    requires Sane(p)
    ensures r.Go? ==> Sane(r.p)
    decreases |tokens|
  {
    if tokens == [] then Go(p)
    else
      match TokenStep(p, tokens[0])
      case Stop(why) => Stop(why)
      case Go(q) => Run(q, tokens[1..])
  }

  const Begin: Parse := Parse([], [START1], [0], 0, 0, false)

  /** What follows the last token: everything is applied, END is appended, and the parentheses are counted. */
  function Finish(p: Parse): (r: Outcome)
    requires Sane(p)
    ensures r.Go? ==> Sane(r.p)
  {
    match EvalUntil(p, START)
    case Stop(why) => Stop(why)
    case Go(q) =>
      match OperandStep(q, Atom(End))
      case Stop(why) => Stop(why)
      case Go(r) =>
        match EvalUntil(r, START)
        case Stop(why) => Stop(why)
        case Go(s) => if s.nbra != 0 then Stop(UnmatchedLeft) else Go(s)
  }

  function Parsed(tokens: seq<Token>): Outcome
  {
    match Run(Begin, tokens)
    case Stop(why) => Stop(why)
    case Go(p) => Finish(p)
  }

  /** The parser gave up only because a table was too small. */
  predicate Limited(r: Outcome)
  {
    r.Stop? && (r.why == StackOverflow || r.why == TooManySubs)
  }

  /** Two expressions that match the same spans of every text. */
  ghost predicate Same(e: Exp, f: Exp)
  {
    WellMade(e) && WellMade(f) && forall text: seq<Rune> :: Lang(e, text) == Lang(f, text)
  }

  /** No postfix operator stands directly after another. */
  predicate Once(e: Exp)
  {
    match e
    case Atom(_) => true
    case Group(sub, _) => Once(sub)
    case Cat(a, b) => Once(a) && Once(b)
    case Alt(a, b) => Once(a) && Once(b)
    case Postfix(_, sub) => Once(sub) && !sub.Postfix?
  }

  /** The expression without the numbers of its groups. */
  function Bare(e: Exp): Exp
  {
    match e
    case Atom(_) => e
    case Group(sub, _) => Group(Bare(sub), 0)
    case Cat(a, b) => Cat(Bare(a), Bare(b))
    case Alt(a, b) => Alt(Bare(a), Bare(b))
    case Postfix(op, sub) => Postfix(op, Bare(sub))
  }

  /** An expression that matches what e does, and that is e itself but for its groups' numbers if no postfix operators are stacked. */
  ghost predicate ParsedAs(y: Exp, e: Exp)
  {
    Same(y, e) && (Once(e) ==> Bare(y) == Bare(e))
  }

  lemma {:induction false} RunAppend(p: Parse, s: seq<Token>, t: seq<Token>)
    requires Sane(p)
    ensures Run(p, s + t) == match Run(p, s) { case Stop(why) => Stop(why) case Go(q) => Run(q, t) }
    decreases |s|
  {
    if s == [] {
      assert s + t == t;
    } else {
      assert (s + t)[0] == s[0] && (s + t)[1..] == s[1..] + t;
      match TokenStep(p, s[0])
      case Stop(_) =>
      case Go(q) => RunAppend(q, s[1..], t);
    }
  }

  lemma RunOne(p: Parse, t: Token)
    requires Sane(p)
    ensures Run(p, [t]) == TokenStep(p, t)
  {
    if TokenStep(p, t).Go? {
      assert Run(TokenStep(p, t).p, []) == TokenStep(p, t);
    }
  }

  function Recounted(r: Outcome, c: nat, n: int): Outcome
  {
    match r
    case Stop(why) => r
    case Go(q) => Go(q.(cursubid := c, nbra := n))
  }

  lemma ReduceKeeps(p: Parse, c: nat, n: int)
    requires Sane(p) && |p.ators| > 0
    ensures Reduce(p.(cursubid := c, nbra := n)) == Recounted(Reduce(p), c, n)
  {
  }

  /** The counters play no part in evaluation. */
  lemma {:induction false} EvalKeeps(p: Parse, pri: Op, c: nat, n: int)
    requires Sane(p)
    ensures EvalUntil(p.(cursubid := c, nbra := n), pri) == Recounted(EvalUntil(p, pri), c, n)
    decreases |p.ators|
  {
    hide Reduce, Prec;
    var k := |p.ators| - 1;
    var p' := p.(cursubid := c, nbra := n);
    if k >= 0 && (pri == RBRA || Prec(p.ators[k]) >= Prec(pri)) {
      ReduceKeeps(p, c, n);
      if Reduce(p).Go? {
        EvalKeeps(Reduce(p).p, pri, c, n);
      }
    }
  }

  // Postfix operators that wait on the stack, in ascending order of precedence.

  predicate Ascending(ops: seq<Op>)
  {
    && (forall k :: 0 <= k < |ops| ==> IsPostfix(ops[k]))
    && (forall k, l :: 0 <= k < l < |ops| ==> Prec(ops[k]) < Prec(ops[l]))
  }

  /** The waiting operators applied, the last one first. */
  function Apply(ops: seq<Op>, x: Exp): Exp
  {
    if ops == [] then x else Apply(ops[..|ops|-1], Postfix(ops[|ops|-1], x))
  }

  lemma {:induction false} ApplyWellMade(ops: seq<Op>, x: Exp)
    requires Ascending(ops)
    ensures WellMade(Apply(ops, x)) == WellMade(x)
    decreases |ops|
  {
    if ops != [] {
      ApplyWellMade(ops[..|ops|-1], Postfix(ops[|ops|-1], x));
    }
  }

  /** Equal languages stay equal under the waiting operators. */
  lemma {:induction false} ApplySame(ops: seq<Op>, x: Exp, y: Exp)
    requires Ascending(ops) && Same(x, y)
    ensures Same(Apply(ops, x), Apply(ops, y))
    decreases |ops|
  {
    if ops != [] {
      var op := ops[|ops|-1];
      assert Same(Postfix(op, x), Postfix(op, y));
      ApplySame(ops[..|ops|-1], Postfix(op, x), Postfix(op, y));
    }
  }

  /** A new operator may be applied before the waiting ones instead of after them. */
  lemma {:induction false} ApplyCommute(ops: seq<Op>, t: Op, x: Exp)
    requires Ascending(ops) && IsPostfix(t) && WellMade(x)
    ensures Same(Apply(ops, Postfix(t, x)), Postfix(t, Apply(ops, x)))
    decreases |ops|
  {
    ApplyWellMade(ops, x);
    if ops != [] {
      var op, rest := ops[|ops|-1], ops[..|ops|-1];
      var l, r := Postfix(op, Postfix(t, x)), Postfix(t, Postfix(op, x));
      forall text ensures Lang(l, text) == Lang(r, text) {
        PostfixCommute(op, t, Lang(x, text), text);
      }
      ApplySame(rest, l, r);
      ApplyCommute(rest, t, Postfix(op, x));
    }
  }

  /** The stacks of p: some operands and operators below, and the parse of the current term on top. */
  predicate Stacks(p: Parse, ands: seq<Exp>, ators: seq<Op>)
  {
    Sane(p) && p.ands == ands && p.ators == ators
  }

  /** An operator the waiting postfix operators stand on. */
  predicate Below(ators: seq<Op>)
  {
    |ators| > 0 && Prec(ators[|ators|-1]) < Prec(STAR)
  }

  /** The operator t makes evaluation apply everything down to those of precedence limit. */
  predicate Reaches(t: Op, limit: Op)
  {
    t == RBRA || Prec(t) <= Prec(limit)
  }

  lemma ReduceWaiting(p: Parse, a: seq<Exp>, o: seq<Op>, ops: seq<Op>, x: Exp)
    requires ops != [] && Stacks(p, a + [x], o + ops) && IsPostfix(ops[|ops|-1])
    ensures p.ators[|p.ators|-1] == ops[|ops|-1] && Reduce(p).Go?
    ensures var q := Reduce(p).p;
      && Stacks(q, a + [Postfix(ops[|ops|-1], x)], o + ops[..|ops|-1])
      && q == p.(ands := q.ands, ators := q.ators, subids := p.subids[..|p.ators|-1])
  {
    assert (o + ops)[..|o| + |ops| - 1] == o + ops[..|ops|-1];
    assert (a + [x])[..|a|] == a;
  }

  /** Evaluation applies the waiting operators that bind at least as tightly as a new one. */
  lemma {:induction false} PopSome(p: Parse, a: seq<Exp>, o: seq<Op>, ops: seq<Op>, x: Exp, t: Op) returns (ops': seq<Op>, x': Exp, q: Parse)
    requires Stacks(p, a + [x], o + ops) && Below(o) && Ascending(ops) && IsPostfix(t)
    ensures EvalUntil(p, t) == Go(q) && Stacks(q, a + [x'], o + ops') && Ascending(ops' + [t]) && Ascending(ops') && |ops'| <= |ops|
    ensures Apply(ops', x') == Apply(ops, x)
    decreases |ops|
  {
    hide Reduce;
    ops', x', q := ops, x, p;
    if ops != [] {
      var n := |ops| - 1;
      ReduceWaiting(p, a, o, ops, x);
      if Prec(ops[n]) >= Prec(t) {
        var r := Reduce(p).p;
        ops', x', q := PopSome(r, a, o, ops[..n], Postfix(ops[n], x), t);
      }
    }
  }

  /** Evaluation to a looser operator applies all of the waiting ones. */
  lemma {:induction false} PopAll(p: Parse, a: seq<Exp>, o: seq<Op>, ops: seq<Op>, x: Exp, t: Op) returns (q: Parse)
    requires Stacks(p, a + [x], o + ops) && Below(o) && Ascending(ops) && Reaches(t, CAT)
    ensures Stacks(q, a + [Apply(ops, x)], o) && EvalUntil(p, t) == EvalUntil(q, t)
    ensures q == p.(ands := q.ands, ators := q.ators, subids := p.subids[..|o|])
    decreases |ops|
  {
    hide Reduce;
    q := p;
    if ops != [] {
      var n := |ops| - 1;
      ReduceWaiting(p, a, o, ops, x);
      var r := Reduce(p).p;
      q := PopAll(r, a, o, ops[..n], Postfix(ops[n], x), t);
    } else {
      assert o + ops == o;
    }
  }

  /** What is on top of the stacks while a concatenation is read: the part before the last item, if any. */
  function CatOps(cat: seq<Exp>): seq<Op> { if cat == [] then [] else [CAT] }

  function AltOps(alt: seq<Exp>): seq<Op> { if alt == [] then [] else [OR] }

  function CatWith(cat: seq<Exp>, x: Exp): Exp { if cat == [] then x else Cat(cat[0], x) }

  function AltWith(alt: seq<Exp>, x: Exp): Exp { if alt == [] then x else Alt(alt[0], x) }

  /** Evaluation applies a binary operator on top of the stack. */
  lemma PopBinary(p: Parse, a: seq<Exp>, o: seq<Op>, op: Op, y: Exp, x: Exp, t: Op) returns (q: Parse)
    requires (op == OR || op == CAT) && Stacks(p, a + [y] + [x], o + [op]) && Reaches(t, op)
    ensures Stacks(q, a + [if op == OR then Alt(y, x) else Cat(y, x)], o) && EvalUntil(p, t) == EvalUntil(q, t)
    ensures q == p.(ands := q.ands, ators := q.ators, subids := p.subids[..|o|])
  {
    assert p.ators[|p.ators|-1] == op;
    assert (a + [y] + [x])[..|a|] == a && (o + [op])[..|o|] == o;
    q := Reduce(p).p;
  }

  lemma PopCat(p: Parse, a: seq<Exp>, o: seq<Op>, cat: seq<Exp>, ops: seq<Op>, x: Exp, t: Op) returns (q: Parse)
    requires Stacks(p, a + cat + [x], o + CatOps(cat) + ops) && |cat| <= 1 && Below(o) && Ascending(ops) && Reaches(t, CAT)
    ensures Stacks(q, a + [CatWith(cat, Apply(ops, x))], o) && EvalUntil(p, t) == EvalUntil(q, t)
    ensures q == p.(ands := q.ands, ators := q.ators, subids := p.subids[..|o|])
  {
    hide EvalUntil, Reduce, Apply;
    q := PopAll(p, a + cat, o + CatOps(cat), ops, x, t);
    if cat == [] {
      assert a + cat == a && o + CatOps(cat) == o;
    } else {
      var r := PopBinary(q, a, o, CAT, cat[0], Apply(ops, x), t);
      assert p.subids[..|o| + 1][..|o|] == p.subids[..|o|];
      q := r;
    }
  }

  lemma PopAlt(p: Parse, a: seq<Exp>, o: seq<Op>, alt: seq<Exp>, cat: seq<Exp>, ops: seq<Op>, x: Exp, t: Op) returns (q: Parse)
    requires Stacks(p, a + alt + cat + [x], o + AltOps(alt) + CatOps(cat) + ops) && |alt| <= 1 && |cat| <= 1
    requires Below(o) && Ascending(ops) && Reaches(t, OR)
    ensures Stacks(q, a + [AltWith(alt, CatWith(cat, Apply(ops, x)))], o) && EvalUntil(p, t) == EvalUntil(q, t)
    ensures q == p.(ands := q.ands, ators := q.ators, subids := p.subids[..|o|])
  {
    hide EvalUntil, Reduce, Apply, CatWith;
    q := PopCat(p, a + alt, o + AltOps(alt), cat, ops, x, t);
    if alt == [] {
      assert a + alt == a && o + AltOps(alt) == o;
    } else {
      var r := PopBinary(q, a, o, OR, alt[0], CatWith(cat, Apply(ops, x)), t);
      assert p.subids[..|o| + 1][..|o|] == p.subids[..|o|];
      q := r;
    }
  }

  /** An operand read now will stand on a and o, a concatenation being implied after another operand. */
  ghost predicate Ready(p: Parse, a: seq<Exp>, o: seq<Op>)
    requires Sane(p)
  {
    && p.nbra >= 0 && Below(o)
    && (!p.lastwasand ==> Stacks(p, a, o))
    && (p.lastwasand ==> EvalUntil(p, CAT).Go? && Stacks(EvalUntil(p, CAT).p, a, o[..|o|-1]) && o[|o|-1] == CAT)
  }

  // How much of the tables an expression needs.

  /** How many postfix operators of e wait at most: no two of one kind do. */
  function Stacked(e: Exp): nat
  {
    if !e.Postfix? then 0 else if Stacked(e.sub) < 3 then Stacked(e.sub) + 1 else 3
  }

  function Groups(e: Exp): nat
  {
    match e
    case Atom(_) => 0
    case Group(sub, _) => Groups(sub) + 1
    case Cat(a, b) => Groups(a) + Groups(b)
    case Alt(a, b) => Groups(a) + Groups(b)
    case Postfix(_, sub) => Groups(sub)
  }

  /** With na operands and no operators below there is room on the stacks to read e. */
  predicate Fits(e: Exp, na: nat, no: nat)
  {
    match e
    case Atom(_) => na + 1 <= NSTACK && no <= NSTACK
    case Group(sub, _) => no + 1 <= NSTACK && Fits(sub, na, no + 1)
    case Cat(a, b) => Fits(a, na, no) && Fits(b, na + 1, no + 1)
    case Alt(a, b) => Fits(a, na, no) && no + 1 <= NSTACK && Fits(b, na + 1, no + 1)
    case Postfix(_, sub) => Fits(sub, na, no) && no + Stacked(e) <= NSTACK
  }

  /** The same, with c groups already. */
  predicate HasRoom(e: Exp, c: nat, na: nat, no: nat)
  {
    Fits(e, na, no) && c + Groups(e) < NSUBEXP
  }

  /** The stacks after a term e with its postfix operators has been read. */
  ghost predicate PostForm(p: Parse, a: seq<Exp>, o: seq<Op>, ops: seq<Op>, x: Exp, e: Exp)
  {
    p.lastwasand && Stacks(p, a + [x], o + ops) && Ascending(ops) && |ops| <= Stacked(e) && ParsedAs(Apply(ops, x), e)
  }

  ghost predicate PostDone(r: Outcome, nbra: int, c: nat, a: seq<Exp>, o: seq<Op>, e: Exp)
  {
    || (Limited(r) && !HasRoom(e, c, |a|, |o|))
    || (r.Go? && r.p.nbra == nbra && r.p.cursubid == c + Groups(e) && exists ops, x :: PostForm(r.p, a, o, ops, x, e))
  }

  /** The same for a concatenation and for an alternation. */
  ghost predicate CatForm(p: Parse, a: seq<Exp>, o: seq<Op>, cat: seq<Exp>, ops: seq<Op>, x: Exp, e: Exp)
  {
    && p.lastwasand && |cat| <= 1 && Ascending(ops)
    && Stacks(p, a + cat + [x], o + CatOps(cat) + ops) && ParsedAs(CatWith(cat, Apply(ops, x)), e)
  }

  ghost predicate CatDone(r: Outcome, nbra: int, c: nat, a: seq<Exp>, o: seq<Op>, e: Exp)
  {
    || (Limited(r) && !HasRoom(e, c, |a|, |o|))
    || (r.Go? && r.p.nbra == nbra && r.p.cursubid == c + Groups(e) && exists cat, ops, x :: CatForm(r.p, a, o, cat, ops, x, e))
  }

  ghost predicate AltForm(p: Parse, a: seq<Exp>, o: seq<Op>, alt: seq<Exp>, cat: seq<Exp>, ops: seq<Op>, x: Exp, e: Exp)
  {
    && p.lastwasand && |alt| <= 1 && |cat| <= 1 && Ascending(ops)
    && Stacks(p, a + alt + cat + [x], o + AltOps(alt) + CatOps(cat) + ops)
    && ParsedAs(AltWith(alt, CatWith(cat, Apply(ops, x))), e)
  }

  ghost predicate AltDone(r: Outcome, nbra: int, c: nat, a: seq<Exp>, o: seq<Op>, e: Exp)
  {
    || (Limited(r) && !HasRoom(e, c, |a|, |o|))
    || (r.Go? && r.p.nbra == nbra && r.p.cursubid == c + Groups(e) && exists alt, cat, ops, x :: AltForm(r.p, a, o, alt, cat, ops, x, e))
  }

  lemma ReadyOperand(p: Parse, a: seq<Exp>, o: seq<Op>, e: Exp)
    requires Sane(p) && Ready(p, a, o)
    ensures var r := OperandStep(p, e);
      || (Limited(r) && !(|a| + 1 <= NSTACK && |o| <= NSTACK))
      || (r.Go? && r.p.lastwasand && r.p.nbra == p.nbra && r.p.cursubid == p.cursubid && Stacks(r.p, a + [e], o))
  {
    if p.lastwasand && |EvalUntil(p, CAT).p.ators| < NSTACK {
      assert o[..|o|-1] + [CAT] == o;
    }
  }

  lemma ReadyOpen(p: Parse, a: seq<Exp>, o: seq<Op>)
    requires Sane(p) && Ready(p, a, o)
    ensures var r := OperatorStep(p, LBRA);
      || (Limited(r) && !(p.cursubid + 1 < NSUBEXP && |o| + 1 <= NSTACK))
      || (r.Go? && r.p.nbra == p.nbra + 1 && r.p.cursubid == p.cursubid + 1 && Ready(r.p, a, o + [LBRA]) && !r.p.lastwasand)
  {
    hide Reduce, Prec, IsPostfix, Ready, EvalUntil;
    var p' := p.(cursubid := p.cursubid + 1, nbra := p.nbra + 1);
    if p.cursubid + 1 < NSUBEXP {
      if p.lastwasand {
        ReadyCat(p, a, o);
        EvalKeeps(p, CAT, p.cursubid + 1, p.nbra + 1);
        InfixCat(p', a, o);
        hide Infix;
        if Infix(p', CAT).Go? { PushedReady(Infix(p', CAT).p, a, o); }
      } else {
        ReadyStacks(p, a, o);
        PushedReady(p', a, o);
      }
    }
  }

  lemma ReadyCat(p: Parse, a: seq<Exp>, o: seq<Op>)
    requires Sane(p) && Ready(p, a, o) && p.lastwasand
    ensures p.nbra >= 0 && EvalUntil(p, CAT).Go? && |o| > 0 && Stacks(EvalUntil(p, CAT).p, a, o[..|o|-1]) && o[|o|-1] == CAT
  {
    hide EvalUntil;
  }

  lemma ReadyStacks(p: Parse, a: seq<Exp>, o: seq<Op>)
    requires Sane(p) && Ready(p, a, o) && !p.lastwasand
    ensures p.nbra >= 0 && Stacks(p, a, o)
  {
    hide EvalUntil;
  }

  lemma PushedReady(p: Parse, a: seq<Exp>, o: seq<Op>)
    requires Sane(p) && Stacks(p, a, o) && p.nbra >= 0
    ensures var r := PushAtor(p, LBRA);
      if r.Go? then Sane(r.p) && r.p.nbra == p.nbra && r.p.cursubid == p.cursubid && Ready(r.p.(lastwasand := false), a, o + [LBRA])
      else |o| + 1 > NSTACK
  {
    hide EvalUntil;
  }

  /** The implied concatenation. */
  lemma InfixCat(p: Parse, a: seq<Exp>, o: seq<Op>)
    requires Sane(p) && EvalUntil(p, CAT).Go? && |o| > 0 && Stacks(EvalUntil(p, CAT).p, a, o[..|o|-1]) && o[|o|-1] == CAT
    ensures var r := Infix(p, CAT);
      || (Limited(r) && |o| > NSTACK)
      || (r.Go? && Stacks(r.p, a, o) && r.p.nbra == p.nbra && r.p.cursubid == p.cursubid)
  {
    hide EvalUntil;
    assert o[..|o|-1] + [CAT] == o;
  }

  /** A right parenthesis closes an alternation. */
  lemma CloseGroup(p: Parse, c: nat, a: seq<Exp>, o: seq<Op>, alt: seq<Exp>, cat: seq<Exp>, ops: seq<Op>, x: Exp, e: Exp, id: nat)
    requires Below(o) && p.nbra > 0 && p.cursubid == c + Groups(e) + 1
    requires AltForm(p, a, o + [LBRA], alt, cat, ops, x, e)
    ensures PostDone(OperatorStep(p, RBRA), p.nbra - 1, c, a, o, Group(e, id))
  {
    hide Reduce, Apply, CatWith, AltWith, Lang, EvalUntil, Prec, Ascending, ParsedAs;
    var p' := p.(nbra := p.nbra - 1);
    assert Below(o + [LBRA]) by { OpenIsBelow(o); }
    assert Reaches(RBRA, OR) by { CloseReaches(); }
    var q := PopAlt(p', a, o + [LBRA], alt, cat, ops, x, RBRA);
    var y := AltWith(alt, CatWith(cat, Apply(ops, x)));
    var r := OperatorStep(p, RBRA);
    var g := Group(y, q.subids[|o|]);
    assert r.Go? && Stacks(r.p, a + [g], o) by { ReduceGroup(q, a, o, y); }
    assert o + [] == o;
    assert Apply([], g) == g && ParsedAs(g, Group(e, id)) by { GroupSame(y, e, q.subids[|o|], id); }
    assert PostForm(r.p, a, o, [], g, Group(e, id)) by { NoOps(); }
  }

  lemma OpenIsBelow(o: seq<Op>)
    ensures Below(o + [LBRA])
  {
  }

  lemma CloseReaches()
    ensures Reaches(RBRA, OR)
  {
  }

  lemma NoOps()
    ensures Ascending([])
  {
  }

  lemma ReduceGroup(q: Parse, a: seq<Exp>, o: seq<Op>, y: Exp)
    requires Stacks(q, a + [y], o + [LBRA])
    ensures EvalUntil(q, RBRA).Go? && Stacks(EvalUntil(q, RBRA).p, a + [Group(y, q.subids[|o|])], o)
  {
    assert (a + [y])[..|a|] == a && (o + [LBRA])[..|o|] == o;
    assert q.ators[|q.ators|-1] == LBRA;
  }

  lemma GroupSame(y: Exp, e: Exp, i: nat, j: nat)
    requires ParsedAs(y, e)
    ensures ParsedAs(Group(y, i), Group(e, j)) && Apply([], Group(y, i)) == Group(y, i)
  {
    assert Same(Group(y, i), Group(e, j));
  }

  /** A postfix operator after a term. */
  lemma AddPostfix(p: Parse, c: nat, a: seq<Exp>, o: seq<Op>, ops: seq<Op>, x: Exp, e: Exp, t: Op)
    requires Below(o) && IsPostfix(t) && PostForm(p, a, o, ops, x, e) && p.cursubid == c + Groups(e)
    ensures PostDone(OperatorStep(p, t), p.nbra, c, a, o, Postfix(t, e))
  {
    hide Apply, Lang, Reduce;
    var ops', x', q := PopSome(p, a, o, ops, x, t);
    var r := OperatorStep(p, t);
    AscendingShort(ops' + [t]);
    if |q.ators| < NSTACK {
      assert o + ops' + [t] == o + (ops' + [t]);
      assert ParsedAs(Apply(ops' + [t], x'), Postfix(t, e)) by { AnotherOp(ops', x', e, t); }
      assert PostForm(r.p, a, o, ops' + [t], x', Postfix(t, e));
    }
  }

  lemma AscendingShort(ops: seq<Op>)
    requires Ascending(ops)
    ensures |ops| <= 3
  {
    if ops != [] { AscendingAt(ops, |ops| - 1); }
  }

  lemma {:induction false} AscendingAt(ops: seq<Op>, k: nat)
    requires Ascending(ops) && k < |ops|
    ensures Prec(STAR) + k <= Prec(ops[k]) <= Prec(STAR) + 2
  {
    if k > 0 { AscendingAt(ops, k - 1); }
  }

  lemma ApplyLast(ops: seq<Op>, t: Op, x: Exp)
    ensures Apply(ops + [t], x) == Apply(ops, Postfix(t, x))
  {
    assert (ops + [t])[..|ops|] == ops;
  }

  /** A postfix operator read after the others: it is applied first, which makes no difference, and none when it is alone. */
  lemma AnotherOp(ops: seq<Op>, x: Exp, e: Exp, t: Op)
    requires Ascending(ops) && IsPostfix(t) && ParsedAs(Apply(ops, x), e)
    ensures ParsedAs(Apply(ops + [t], x), Postfix(t, e))
  {
    hide Lang, Apply;
    ApplyWellMade(ops, x);
    ApplyCommute(ops, t, x);
    ApplyLast(ops, t, x);
    PostfixSame(Apply(ops, x), e, t);
    assert Same(Apply(ops + [t], x), Postfix(t, e));
    if Once(Postfix(t, e)) {
      ApplyPostfix(ops, x);
      BareShape(Apply(ops, x), e);
      NoneApplied(x, t);
    }
  }

  lemma NoneApplied(x: Exp, t: Op)
    ensures Apply([], x) == x && Apply([] + [t], x) == Postfix(t, x)
  {
    assert [t][..0] == [];
  }

  lemma BareShape(y: Exp, e: Exp)
    requires Bare(y) == Bare(e)
    ensures y.Postfix? <==> e.Postfix?
  {
  }

  lemma {:induction false} ApplyPostfix(ops: seq<Op>, x: Exp)
    ensures ops != [] ==> Apply(ops, x).Postfix?
    decreases |ops|
  {
    if ops != [] { ApplyPostfix(ops[..|ops|-1], Postfix(ops[|ops|-1], x)); }
  }

  lemma PostfixSame(y: Exp, e: Exp, t: Op)
    requires ParsedAs(y, e) && IsPostfix(t)
    ensures Same(Postfix(t, y), Postfix(t, e)) && (Once(e) ==> Bare(y) == Bare(e))
  {
  }

  lemma {:induction false} RunPost(e: Exp, p: Parse, a: seq<Exp>, o: seq<Op>)
    requires IsPost(e) && Sane(p) && Ready(p, a, o)
    ensures PostDone(Run(p, Print(e)), p.nbra, p.cursubid, a, o, e)
    decreases e, 0
  {
    hide Run, TokenStep, EvalUntil, OperandStep, OperatorStep, PostForm, AltForm, Ready;
    match e
    case Atom(inst) => AtomRun(e, p, a, o);
    case Group(sub, id) =>
      var s, t := [Operator(LBRA)], Print(sub);
      RunAppend(p, s + t, [Operator(RBRA)]);
      RunAppend(p, s, t);
      OperatorRun(p, LBRA);
      ReadyOpen(p, a, o);
      var r1 := OperatorStep(p, LBRA);
      if r1.Go? {
        RunAlt(sub, r1.p, a, o + [LBRA]);
        var r2 := Run(r1.p, t);
        if r2.Go? {
          var alt, cat, ops, x :| AltForm(r2.p, a, o + [LBRA], alt, cat, ops, x, sub);
          OperatorRun(r2.p, RBRA);
          ReadyBelow(p, a, o);
          CloseGroup(r2.p, p.cursubid, a, o, alt, cat, ops, x, sub, id);
        }
      }
    case Postfix(op, sub) =>
      RunAppend(p, Print(sub), [Operator(op)]);
      RunPost(sub, p, a, o);
      var r1 := Run(p, Print(sub));
      if r1.Go? {
        var ops, x :| PostForm(r1.p, a, o, ops, x, sub);
        OperatorRun(r1.p, op);
        ReadyBelow(p, a, o);
        AddPostfix(r1.p, p.cursubid, a, o, ops, x, sub, op);
      }
  }

  lemma ReadyBelow(p: Parse, a: seq<Exp>, o: seq<Op>)
    requires Sane(p) && Ready(p, a, o)
    ensures Below(o) && p.nbra >= 0
  {
  }

  lemma OperatorRun(p: Parse, op: Op)
    requires Sane(p)
    ensures Run(p, [Operator(op)]) == OperatorStep(p, op)
  {
    RunOne(p, Operator(op));
  }

  lemma AtomRun(e: Exp, p: Parse, a: seq<Exp>, o: seq<Op>)
    requires e.Atom? && IsPost(e) && Sane(p) && Ready(p, a, o)
    ensures PostDone(Run(p, Print(e)), p.nbra, p.cursubid, a, o, e)
  {
    hide Run, OperandStep, Ready;
    RunOne(p, Operand(e.inst));
    ReadyOperand(p, a, o, e);
    var r := OperandStep(p, e);
    if r.Go? {
      assert o + [] == o;
      assert PostForm(r.p, a, o, [], e, e);
    }
  }

  predicate Under(o: seq<Op>, op: Op)
  {
    |o| > 0 && Prec(o[|o|-1]) < Prec(op)
  }

  /** After a concatenation the next operand continues it. */
  lemma CatReady(p: Parse, a: seq<Exp>, o: seq<Op>, cat: seq<Exp>, ops: seq<Op>, x: Exp, e: Exp) returns (y: Exp)
    requires Under(o, CAT) && CatForm(p, a, o, cat, ops, x, e) && p.nbra >= 0
    ensures Sane(p) && Ready(p, a + [y], o + [CAT]) && ParsedAs(y, e)
  {
    hide Apply, CatWith, Lang, Reduce;
    var q := PopCat(p, a, o, cat, ops, x, CAT);
    y := CatWith(cat, Apply(ops, x));
    assert (o + [CAT])[..|o|] == o;
  }

  lemma CatSame(y: Exp, z: Exp, l: Exp, r: Exp)
    requires ParsedAs(y, l) && ParsedAs(z, r)
    ensures ParsedAs(Cat(y, z), Cat(l, r)) && ParsedAs(Alt(y, z), Alt(l, r))
  {
    assert Same(Cat(y, z), Cat(l, r)) && Same(Alt(y, z), Alt(l, r));
  }

  lemma {:induction false} RunCat(e: Exp, p: Parse, a: seq<Exp>, o: seq<Op>)
    requires IsCat(e) && Sane(p) && Ready(p, a, o) && Under(o, CAT)
    ensures CatDone(Run(p, Print(e)), p.nbra, p.cursubid, a, o, e)
    decreases e, 1
  {
    hide Run, Ready, ParsedAs, Apply;
    ReadyBelow(p, a, o);
    if e.Cat? {
      RunAppend(p, Print(e.left), Print(e.right));
      RunCat(e.left, p, a, o);
      var r1 := Run(p, Print(e.left));
      if r1.Go? {
        var cat, ops, x :| CatForm(r1.p, a, o, cat, ops, x, e.left);
        var y := CatReady(r1.p, a, o, cat, ops, x, e.left);
        RunPost(e.right, r1.p, a + [y], o + [CAT]);
        var r2 := Run(r1.p, Print(e.right));
        if r2.Go? {
          var ops', x' :| PostForm(r2.p, a + [y], o + [CAT], ops', x', e.right);
          CatSame(y, Apply(ops', x'), e.left, e.right);
          assert CatForm(r2.p, a, o, [y], ops', x', e);
        }
      }
    } else {
      RunPost(e, p, a, o);
      var r := Run(p, Print(e));
      if r.Go? {
        var ops, x :| PostForm(r.p, a, o, ops, x, e);
        assert a + [] == a && o + [] == o;
        assert CatForm(r.p, a, o, [], ops, x, e);
      }
    }
  }

  /** After an alternation and a bar the next operand begins a new branch. */
  lemma AddBar(p: Parse, a: seq<Exp>, o: seq<Op>, alt: seq<Exp>, cat: seq<Exp>, ops: seq<Op>, x: Exp, e: Exp) returns (y: Exp)
    requires Under(o, OR) && AltForm(p, a, o, alt, cat, ops, x, e) && p.nbra >= 0
    ensures ParsedAs(y, e)
    ensures var r := OperatorStep(p, OR);
      || (Limited(r) && |o| + 1 > NSTACK)
      || (r.Go? && r.p.nbra == p.nbra && r.p.cursubid == p.cursubid && Ready(r.p, a + [y], o + [OR]))
  {
    hide Apply, CatWith, AltWith, Lang, Reduce;
    var q := PopAlt(p, a, o, alt, cat, ops, x, OR);
    y := AltWith(alt, CatWith(cat, Apply(ops, x)));
  }

  lemma {:induction false} RunAlt(e: Exp, p: Parse, a: seq<Exp>, o: seq<Op>)
    requires IsAlt(e) && Sane(p) && Ready(p, a, o) && Under(o, OR)
    ensures AltDone(Run(p, Print(e)), p.nbra, p.cursubid, a, o, e)
    decreases e, 2
  {
    hide Run, Ready, ParsedAs, Apply, OperatorStep;
    ReadyBelow(p, a, o);
    if e.Alt? {
      var s, t := Print(e.left), Print(e.right);
      RunAppend(p, s + [Operator(OR)], t);
      RunAppend(p, s, [Operator(OR)]);
      RunAlt(e.left, p, a, o);
      var r1 := Run(p, s);
      if r1.Go? {
        var alt, cat, ops, x :| AltForm(r1.p, a, o, alt, cat, ops, x, e.left);
        OperatorRun(r1.p, OR);
        var y := AddBar(r1.p, a, o, alt, cat, ops, x, e.left);
        var r2 := OperatorStep(r1.p, OR);
        if r2.Go? {
          RunCat(e.right, r2.p, a + [y], o + [OR]);
          var r3 := Run(r2.p, t);
          if r3.Go? {
            var cat', ops', x' :| CatForm(r3.p, a + [y], o + [OR], cat', ops', x', e.right);
            CatSame(y, CatWith(cat', Apply(ops', x')), e.left, e.right);
            assert AltForm(r3.p, a, o, [y], cat', ops', x', e);
          }
        }
      }
    } else {
      RunCat(e, p, a, o);
      var r := Run(p, Print(e));
      if r.Go? {
        var cat, ops, x :| CatForm(r.p, a, o, cat, ops, x, e);
        assert a + [] == a && o + [] == o;
        assert AltForm(r.p, a, o, [], cat, ops, x, e);
      }
    }
  }

  /** A parse that went through and left an expression and END. */
  predicate ParsesWhole(r: Outcome)
  {
    r.Go? && |r.p.ands| == 1 && r.p.ands[0].Cat?
  }

  /** The whole parse of e leaves one operand: an expression that means the same, followed by END. */
  ghost predicate ParsesTo(r: Outcome, e: Exp)
  {
    || (Limited(r) && !HasRoom(e, 0, 0, 1))
    || (r.Go? && |r.p.ands| == 1 && r.p.ands[0].Cat? && r.p.ands[0].right == Atom(End) && ParsedAs(r.p.ands[0].left, e))
  }

  lemma FinishAlt(p: Parse, alt: seq<Exp>, cat: seq<Exp>, ops: seq<Op>, x: Exp, e: Exp)
    requires AltForm(p, [], [START1], alt, cat, ops, x, e) && p.nbra == 0
    ensures ParsesTo(Finish(p), e)
    ensures ParsesWhole(Finish(p)) && Finish(p).p.ands[0].left == AltWith(alt, CatWith(cat, Apply(ops, x)))
  {
    hide Apply, CatWith, AltWith, Lang, Reduce;
    var q := PopAlt(p, [], [START1], alt, cat, ops, x, START);
    var y := AltWith(alt, CatWith(cat, Apply(ops, x)));
    var r := OperandStep(q, Atom(End)).p;
    assert Stacks(r, [] + [y] + [Atom(End)], [START1] + [CAT]);
    var z := PopBinary(r, [], [START1], CAT, y, Atom(End), START);
  }

  /**
   * Every expression, written out, is parsed to one that matches the same spans of every text,
   * unless it needs more room than the stacks or the sub-expression table have.
   */
  lemma ParsedMeansTheSame(e: Exp)
    requires IsAlt(e)
    ensures ParsesTo(Parsed(Print(e)), e)
  {
    hide Run, Finish;
    RunAlt(e, Begin, [], [START1]);
    var r := Run(Begin, Print(e));
    if r.Go? {
      var alt, cat, ops, x :| AltForm(r.p, [], [START1], alt, cat, ops, x, e);
      FinishAlt(r.p, alt, cat, ops, x, e);
    }
  }

  /** Of stacked operators the parser applies the one that binds tighter first. */
  lemma StackedParse(inst: Inst)
    requires IsOperand(inst)
    ensures var r := Parsed([Operand(inst), Operator(PLUS), Operator(QUEST)]);
      ParsesWhole(r) && r.p.ands[0].left == Postfix(PLUS, Postfix(QUEST, Atom(inst)))
  {
    hide Run, Finish, TokenStep, Lang, Apply;
    var x, ops := Atom(inst), [PLUS, QUEST];
    var tokens := [Operand(inst), Operator(PLUS), Operator(QUEST)];
    RunAppend(Begin, [Operand(inst), Operator(PLUS)], [Operator(QUEST)]);
    RunAppend(Begin, [Operand(inst)], [Operator(PLUS)]);
    assert [Operand(inst), Operator(PLUS)] + [Operator(QUEST)] == tokens;
    assert [Operand(inst)] + [Operator(PLUS)] == [Operand(inst), Operator(PLUS)];
    var p1 := Parse([x], [START1], [0], 0, 0, true);
    var p2 := Parse([x], [START1, PLUS], [0, 0], 0, 0, true);
    var p3 := Parse([x], [START1, PLUS, QUEST], [0, 0, 0], 0, 0, true);
    RunOne(Begin, Operand(inst));
    RunOne(p1, Operator(PLUS));
    RunOne(p2, Operator(QUEST));
    FirstOperand(inst);
    OnePostfix(p1, PLUS);
    OnePostfix(p2, QUEST);
    assert [START1] + [PLUS] == [START1, PLUS] && [START1, PLUS] + [QUEST] == [START1, PLUS, QUEST];
    assert [0 as nat] + [0] == [0, 0] && [0 as nat, 0] + [0] == [0, 0, 0];
    assert Run(Begin, tokens) == Go(p3);
    assert p3.ators == [START1] + ops;
    PlusOfQuest(x);
    assert AltForm(p3, [], [START1], [], [], ops, x, Apply(ops, x)) by { StackedForm(p3, ops, x); }
    FinishAlt(p3, [], [], ops, x, Apply(ops, x));
  }

  lemma FirstOperand(inst: Inst)
    ensures TokenStep(Begin, Operand(inst)) == Go(Parse([Atom(inst)], [START1], [0], 0, 0, true))
  {
  }

  /** A postfix operator that binds tighter than all that wait only joins them. */
  lemma OnePostfix(p: Parse, t: Op)
    requires Sane(p) && IsPostfix(t) && 0 < |p.ators| < NSTACK && Prec(p.ators[|p.ators|-1]) < Prec(t) && p.lastwasand
    ensures TokenStep(p, Operator(t)) == Go(p.(ators := p.ators + [t], subids := p.subids + [p.cursubid]))
  {
  }

  lemma PlusOfQuest(x: Exp)
    ensures Apply([PLUS, QUEST], x) == Postfix(PLUS, Postfix(QUEST, x))
  {
    assert [PLUS, QUEST][..1] == [PLUS] && [PLUS][..0] == [];
    assert Apply([PLUS], Postfix(QUEST, x)) == Apply([], Postfix(PLUS, Postfix(QUEST, x)));
  }

  lemma StackedForm(p: Parse, ops: seq<Op>, x: Exp)
    requires Stacks(p, [x], [START1] + ops) && p.lastwasand && ops == [PLUS, QUEST] && WellMade(x)
    ensures AltForm(p, [], [START1], [], [], ops, x, Apply(ops, x))
  {
    hide Lang, Apply;
    assert Ascending(ops);
    ApplyWellMade(ops, x);
    assert [] + [x] == [x] && [START1] + [] + [] + ops == [START1] + ops;
  }
}
