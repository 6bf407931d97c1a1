/** Regular expressions, the spans of a text they match, and how they are written as tokens. */
module RegLang {
  import opened RegProg

  /** Expressions.  An Atom holds the instruction of an operand token; its link is not used. */
  datatype Exp =
    | Atom(inst: Inst)
    | Group(sub: Exp, subid: nat)
    | Cat(left: Exp, right: Exp)
    | Alt(left: Exp, right: Exp)
    | Postfix(op: Op, sub: Exp)

  /** Operators in order of precedence; START1 marks the bottom of the operator stack. */
  datatype Op = START1 | START | RBRA | LBRA | OR | CAT | STAR | PLUS | QUEST

  function Prec(op: Op): nat
  {
    match op
    case START1 => 127
    case START => 128
    case RBRA => 129
    case LBRA => 130
    case OR => 131
    case CAT => 132
    case STAR => 133
    case PLUS => 134
    case QUEST => 135
  }

  predicate IsPostfix(op: Op)
  {
    op == STAR || op == PLUS || op == QUEST
  }

  /** Instructions the lexer makes operands of. */
  predicate IsOperand(inst: Inst)
  {
    inst.Char? || inst.Any? || inst.AnyNl? || inst.Class? || inst.NClass? || inst.Bol? || inst.Eol?
  }

  /** A set of text spans. */
  type Spans = iset<(nat, nat)>

  ghost function Then(r: Spans, s: Spans): Spans
  {
    iset i: nat, k: nat, j: nat | (i, k) in r && (k, j) in s :: (i, j)
  }

  ghost function Empty(text: seq<Rune>): Spans
  {
    iset i: nat | i <= |text| :: (i, i)
  }

  /** n + 1 spans of r one after another. */
  ghost function Power(r: Spans, n: nat): Spans
  {
    if n == 0 then r else Then(r, Power(r, n - 1))
  }

  ghost function Repeated(r: Spans): Spans
  {
    iset i: nat, j: nat, n: nat | (i, j) in Power(r, n) :: (i, j)
  }

  ghost function Closure(op: Op, r: Spans, text: seq<Rune>): Spans
    requires IsPostfix(op)
  {
    match op
    case STAR => Empty(text) + Repeated(r)
    case PLUS => Repeated(r)
    case QUEST => Empty(text) + r
  }

  predicate WellMade(e: Exp)
  {
    match e
    case Atom(inst) => IsOperand(inst)
    case Group(sub, _) => WellMade(sub)
    case Cat(a, b) => WellMade(a) && WellMade(b)
    case Alt(a, b) => WellMade(a) && WellMade(b)
    case Postfix(op, sub) => IsPostfix(op) && WellMade(sub)
  }

  /** The spans of the text that an expression matches. */
  ghost function Lang(e: Exp, text: seq<Rune>): Spans
    requires WellMade(e)
  {
    match e
    case Atom(inst) =>
      iset i: nat, j: nat | i <= |text| && ((j == i && Passes(inst, text, i)) || (i < |text| && j == i + 1 && Takes(inst, text[i]))) :: (i, j)
    case Group(sub, _) => Lang(sub, text)
    case Cat(a, b) => Then(Lang(a, text), Lang(b, text))
    case Alt(a, b) => Lang(a, text) + Lang(b, text)
    case Postfix(op, sub) => Closure(op, Lang(sub, text), text)
  }

  /** Spans that begin and end in the text. */
  ghost predicate Inside(r: Spans, text: seq<Rune>)
  {
    forall i: nat, j: nat :: (i, j) in r ==> i <= |text| && j <= |text|
  }

  lemma {:induction false} PowerInside(r: Spans, text: seq<Rune>, n: nat)
    requires Inside(r, text)
    ensures Inside(Power(r, n), text)
  {
    if n > 0 {
      PowerInside(r, text, n - 1);
    }
  }

  lemma {:induction false} LangInside(e: Exp, text: seq<Rune>)
    requires WellMade(e)
    ensures Inside(Lang(e, text), text)
  {
    match e
    case Atom(inst) =>
    case Group(sub, _) => LangInside(sub, text);
    case Cat(a, b) => LangInside(a, text); LangInside(b, text);
    case Alt(a, b) => LangInside(a, text); LangInside(b, text);
    case Postfix(op, sub) =>
      LangInside(sub, text);
      forall n: nat ensures Inside(Power(Lang(sub, text), n), text) { PowerInside(Lang(sub, text), text, n); }
  }

  lemma {:induction false} PowerAdd(r: Spans, m: nat, n: nat, i: nat, k: nat, j: nat)
    requires (i, k) in Power(r, m) && (k, j) in Power(r, n)
    ensures (i, j) in Power(r, m + n + 1)
    decreases m
  {
    if m > 0 {
      var l: nat :| (i, l) in r && (l, k) in Power(r, m - 1);
      PowerAdd(r, m - 1, n, l, k, j);
    }
  }

  lemma RepeatedThen(r: Spans, i: nat, k: nat, j: nat)
    requires (i, k) in Repeated(r) && (k, j) in Repeated(r)
    ensures (i, j) in Repeated(r)
  {
    var m: nat :| (i, k) in Power(r, m);
    var n: nat :| (k, j) in Power(r, n);
    PowerAdd(r, m, n, i, k, j);
  }

  lemma RepeatedOnce(r: Spans, i: nat, j: nat)
    requires (i, j) in r
    ensures (i, j) in Repeated(r)
  {
    assert (i, j) in Power(r, 0);
  }

  lemma {:induction false} PowerOfRepeated(r: Spans, n: nat, i: nat, j: nat)
    requires (i, j) in Power(Repeated(r), n)
    ensures (i, j) in Repeated(r)
  {
    if n > 0 {
      var k: nat :| (i, k) in Repeated(r) && (k, j) in Power(Repeated(r), n - 1);
      PowerOfRepeated(r, n - 1, k, j);
      RepeatedThen(r, i, k, j);
    }
  }

  lemma RepeatedTwice(r: Spans)
    ensures Repeated(Repeated(r)) == Repeated(r)
  {
    forall i: nat, j: nat | (i, j) in Repeated(Repeated(r)) ensures (i, j) in Repeated(r) {
      var n: nat :| (i, j) in Power(Repeated(r), n);
      PowerOfRepeated(r, n, i, j);
    }
    forall i: nat, j: nat | (i, j) in Repeated(r) ensures (i, j) in Repeated(Repeated(r)) {
      RepeatedOnce(Repeated(r), i, j);
    }
  }

  lemma {:induction false} PowerOfOptional(r: Spans, text: seq<Rune>, n: nat, i: nat, j: nat)
    requires (i, j) in Power(Empty(text) + r, n)
    ensures (i, j) in Empty(text) + Repeated(r)
  {
    if n == 0 {
      if (i, j) in r { RepeatedOnce(r, i, j); }
    } else {
      var k: nat :| (i, k) in Empty(text) + r && (k, j) in Power(Empty(text) + r, n - 1);
      PowerOfOptional(r, text, n - 1, k, j);
      if (i, k) in r {
        RepeatedOnce(r, i, k);
        if (k, j) in Repeated(r) { RepeatedThen(r, i, k, j); }
      }
    }
  }

  lemma {:induction false} PowerMono(r: Spans, s: Spans, n: nat, i: nat, j: nat)
    requires r <= s && (i, j) in Power(r, n)
    ensures (i, j) in Power(s, n)
  {
    if n > 0 {
      var k: nat :| (i, k) in r && (k, j) in Power(r, n - 1);
      PowerMono(r, s, n - 1, k, j);
    }
  }

  lemma RepeatedOptional(r: Spans, text: seq<Rune>)
    ensures Repeated(Empty(text) + r) == Empty(text) + Repeated(r)
  {
    var s := Empty(text) + r;
    forall i: nat, j: nat | (i, j) in Repeated(s) ensures (i, j) in Empty(text) + Repeated(r) {
      var n: nat :| (i, j) in Power(s, n);
      PowerOfOptional(r, text, n, i, j);
    }
    forall i: nat, j: nat | (i, j) in Empty(text) + Repeated(r) ensures (i, j) in Repeated(s) {
      if (i, j) in Empty(text) {
        RepeatedOnce(s, i, j);
      } else {
        var n: nat :| (i, j) in Power(r, n);
        PowerMono(r, s, n, i, j);
      }
    }
  }

  /** Two different postfix operators may be applied in either order. */
  lemma PostfixCommute(p: Op, t: Op, r: Spans, text: seq<Rune>)
    requires IsPostfix(p) && IsPostfix(t)
    ensures Closure(p, Closure(t, r, text), text) == Closure(t, Closure(p, r, text), text)
  {
    RepeatedTwice(r);
    RepeatedOptional(r, text);
    RepeatedOptional(Repeated(r), text);
  }

  // Expressions as they are written: postfix binds tighter than concatenation, which binds
  // tighter than alternation; both of those group to the left.

  datatype Token = Operand(inst: Inst) | Operator(op: Op)

  predicate IsToken(t: Token)
  {
    match t
    case Operand(inst) => IsOperand(inst)
    case Operator(op) => IsPostfix(op) || op == OR || op == LBRA || op == RBRA
  }

  predicate IsAlt(e: Exp)
    decreases e, 2
  {
    if e.Alt? then IsAlt(e.left) && IsCat(e.right) else IsCat(e)
  }

  predicate IsCat(e: Exp)
    decreases e, 1
  {
    if e.Cat? then IsCat(e.left) && IsPost(e.right) else IsPost(e)
  }

  predicate IsPost(e: Exp)
    decreases e, 0
  {
    match e
    case Atom(inst) => IsOperand(inst)
    case Group(sub, _) => IsAlt(sub)
    case Postfix(op, sub) => IsPostfix(op) && IsPost(sub)
    case _ => false
  }

  function Print(e: Exp): seq<Token>
  {
    match e
    case Atom(inst) => [Operand(inst)]
    case Group(sub, _) => [Operator(LBRA)] + Print(sub) + [Operator(RBRA)]
    case Cat(a, b) => Print(a) + Print(b)
    case Alt(a, b) => Print(a) + [Operator(OR)] + Print(b)
    case Postfix(op, sub) => Print(sub) + [Operator(op)]
  }
}
