/** The code of an expression and the paths through it. */
module RegCode {
  import opened RegProg
  import opened RegLang

  /** The instruction with its next link replaced. */
  function Linked(inst: Inst, x: nat): Inst
  {
    match inst
    case End => End
    case Char(r, _) => Char(r, x)
    case Any(_) => Any(x)
    case AnyNl(_) => AnyNl(x)
    case Class(s, _) => Class(s, x)
    case NClass(s, _) => NClass(s, x)
    case Bol(_) => Bol(x)
    case Eol(_) => Eol(x)
    case Lbra(i, _) => Lbra(i, x)
    case Rbra(i, _) => Rbra(i, x)
    case Or(r, _) => Or(r, x)
    case Nop(_) => Nop(x)
  }

  function Size(e: Exp): nat
  {
    match e
    case Atom(_) => 1
    case Group(sub, _) => Size(sub) + 2
    case Cat(a, b) => Size(a) + Size(b)
    case Alt(a, b) => Size(a) + Size(b) + 2
    case Postfix(op, sub) => Size(sub) + (if op == QUEST then 2 else 1)
  }

  /** Where the code of e at base begins. */
  function First(e: Exp, base: nat): nat
  {
    match e
    case Atom(_) => base
    case Group(sub, _) => base + Size(sub) + 1
    case Cat(a, b) => First(a, base)
    case Alt(a, b) => base + Size(a) + Size(b) + 1
    case Postfix(op, sub) => if op == PLUS then First(sub, base) else base + Size(sub)
  }

  /** The instruction of e at base whose next link leads out. */
  function Last(e: Exp, base: nat): nat
  {
    match e
    case Atom(_) => base
    case Group(sub, _) => base + Size(sub)
    case Cat(a, b) => Last(b, base + Size(a))
    case Alt(a, b) => base + Size(a) + Size(b)
    case Postfix(op, sub) => if op == QUEST then base + Size(sub) + 1 else base + Size(sub)
  }

  lemma {:induction false} InRange(e: Exp, base: nat)
    ensures Size(e) > 0
    ensures base <= First(e, base) < base + Size(e)
    ensures base <= Last(e, base) < base + Size(e)
  {
    match e
    case Atom(_) =>
    case Group(sub, _) => InRange(sub, base);
    case Cat(a, b) => InRange(a, base); InRange(b, base + Size(a));
    case Alt(a, b) => InRange(a, base); InRange(b, base + Size(a));
    case Postfix(_, sub) => InRange(sub, base);
  }

  /** The code of e stands at base in the program and leads out to x. */
  ghost predicate Stands(prog: seq<Inst>, e: Exp, base: nat, x: nat)
    decreases e, 1
  {
    base + Size(e) <= |prog| && Layout(prog, e, base, x)
  }

  /** The parts of the code of e. */
  ghost predicate Layout(prog: seq<Inst>, e: Exp, base: nat, x: nat)
    requires base + Size(e) <= |prog|
    decreases e, 0
  {
    match e
    case Atom(inst) => prog[base] == Linked(inst, x)
    case Group(sub, id) =>
      var n := base + Size(sub);
      Stands(prog, sub, base, n) && prog[n] == Rbra(id, x) && prog[n+1] == Lbra(id, First(sub, base))
    case Cat(a, b) =>
      Stands(prog, a, base, First(b, base + Size(a))) && Stands(prog, b, base + Size(a), x)
    case Alt(a, b) =>
      var n := base + Size(a) + Size(b);
      && Stands(prog, a, base, n) && Stands(prog, b, base + Size(a), n)
      && prog[n] == Nop(x) && prog[n+1] == Or(First(a, base), First(b, base + Size(a)))
    case Postfix(op, sub) =>
      var n := base + Size(sub);
      if op == QUEST then Stands(prog, sub, base, n + 1) && prog[n] == Or(First(sub, base), n + 1) && prog[n+1] == Nop(x)
      else Stands(prog, sub, base, n) && prog[n] == Or(First(sub, base), x)
  }

  lemma Parts(prog: seq<Inst>, e: Exp, base: nat, x: nat)
    ensures Stands(prog, e, base, x) <==> base + Size(e) <= |prog| && Layout(prog, e, base, x)
  {
  }

  lemma LinkedTwice(inst: Inst, x: nat, y: nat)
    ensures Linked(Linked(inst, x), y) == Linked(inst, y)
  {
  }

  predicate SameCode(prog: seq<Inst>, prog': seq<Inst>, e: Exp, base: nat)
  {
    base + Size(e) <= |prog| && base + Size(e) <= |prog'| && forall k :: base <= k < base + Size(e) ==> prog'[k] == prog[k]
  }

  /** Only the code of e itself matters. */
  lemma {:induction false} StandsFrame(prog: seq<Inst>, prog': seq<Inst>, e: Exp, base: nat, x: nat)
    requires Stands(prog, e, base, x) && SameCode(prog, prog', e, base)
    ensures Stands(prog', e, base, x)
    decreases e, 2
  {
    hide Linked, First, Stands, Layout;
    Parts(prog, e, base, x);
    Parts(prog', e, base, x);
    match e
    case Atom(_) => AtomFrame(prog, prog', e, base, x);
    case Group(_, _) => GroupFrame(prog, prog', e, base, x);
    case Cat(_, _) => CatFrame(prog, prog', e, base, x);
    case Alt(_, _) => AltFrame(prog, prog', e, base, x);
    case Postfix(_, _) => PostfixFrame(prog, prog', e, base, x);
  }

  lemma AtomFrame(prog: seq<Inst>, prog': seq<Inst>, e: Exp, base: nat, x: nat)
    requires e.Atom? && SameCode(prog, prog', e, base) && Layout(prog, e, base, x)
    ensures Layout(prog', e, base, x)
  {
  }

  lemma {:induction false} GroupFrame(prog: seq<Inst>, prog': seq<Inst>, e: Exp, base: nat, x: nat)
    requires e.Group? && SameCode(prog, prog', e, base) && Layout(prog, e, base, x)
    ensures Layout(prog', e, base, x)
    decreases e, 1
  {
    hide Linked, First, Stands;
    StandsFrame(prog, prog', e.sub, base, base + Size(e.sub));
  }

  lemma {:induction false} CatFrame(prog: seq<Inst>, prog': seq<Inst>, e: Exp, base: nat, x: nat)
    requires e.Cat? && SameCode(prog, prog', e, base) && Layout(prog, e, base, x)
    ensures Layout(prog', e, base, x)
    decreases e, 1
  {
    hide Linked, First, Stands;
    StandsFrame(prog, prog', e.left, base, First(e.right, base + Size(e.left)));
    StandsFrame(prog, prog', e.right, base + Size(e.left), x);
  }

  lemma {:induction false} AltFrame(prog: seq<Inst>, prog': seq<Inst>, e: Exp, base: nat, x: nat)
    requires e.Alt? && SameCode(prog, prog', e, base) && Layout(prog, e, base, x)
    ensures Layout(prog', e, base, x)
    decreases e, 1
  {
    hide Linked, First, Stands;
    var n := base + Size(e.left) + Size(e.right);
    StandsFrame(prog, prog', e.left, base, n);
    StandsFrame(prog, prog', e.right, base + Size(e.left), n);
  }

  lemma {:induction false} PostfixFrame(prog: seq<Inst>, prog': seq<Inst>, e: Exp, base: nat, x: nat)
    requires e.Postfix? && SameCode(prog, prog', e, base) && Layout(prog, e, base, x)
    ensures Layout(prog', e, base, x)
    decreases e, 1
  {
    hide Linked, First, Stands;
    StandsFrame(prog, prog', e.sub, base, if e.op == QUEST then base + Size(e.sub) + 1 else base + Size(e.sub));
  }

  /** Changing where the last instruction leads changes where the code leads out. */
  lemma {:induction false} Relink(prog: seq<Inst>, e: Exp, base: nat, x: nat, y: nat)
    requires Stands(prog, e, base, x)
    ensures base <= Last(e, base) < base + Size(e) <= |prog|
    ensures Stands(prog[Last(e, base) := Linked(prog[Last(e, base)], y)], e, base, y)
  {
    hide Linked, First, Stands, Layout;
    InRange(e, base);
    var l: nat := Last(e, base);
    Parts(prog, e, base, x);
    var prog' := prog[l := Linked(prog[l], y)];
    Parts(prog', e, base, y);
    match e
    case Atom(_) => RelinkAtom(prog, e, base, x, y);
    case Group(_, _) => RelinkGroup(prog, e, base, x, y);
    case Cat(a, b) => InRange(b, base + Size(a)); CatParts(prog, prog', e, base, x, y); Relink(prog, b, base + Size(a), x, y);
    case Alt(_, _) => RelinkAlt(prog, e, base, x, y);
    case Postfix(_, _) => RelinkPostfix(prog, e, base, x, y);
  }

  lemma RelinkAtom(prog: seq<Inst>, e: Exp, base: nat, x: nat, y: nat)
    requires e.Atom? && base + Size(e) <= |prog| && Layout(prog, e, base, x)
    ensures Layout(prog[base := Linked(prog[base], y)], e, base, y)
  {
    hide Linked;
    LinkedTwice(e.inst, x, y);
  }

  /** In a concatenation only the second part leads out. */
  lemma CatParts(prog: seq<Inst>, prog': seq<Inst>, e: Exp, base: nat, x: nat, y: nat)
    requires e.Cat? && base + Size(e) <= |prog| == |prog'| && Layout(prog, e, base, x)
    requires forall k :: base <= k < base + Size(e.left) ==> prog'[k] == prog[k]
    ensures Stands(prog, e.right, base + Size(e.left), x)
    ensures Stands(prog', e.right, base + Size(e.left), y) ==> Layout(prog', e, base, y)
  {
    hide Linked, First, Stands;
    StandsFrame(prog, prog', e.left, base, First(e.right, base + Size(e.left)));
  }

  lemma RelinkGroup(prog: seq<Inst>, e: Exp, base: nat, x: nat, y: nat)
    requires e.Group? && base + Size(e) <= |prog| && Layout(prog, e, base, x)
    ensures var l := base + Size(e.sub); Layout(prog[l := Linked(prog[l], y)], e, base, y)
  {
    hide Linked, First, Stands;
    var l := base + Size(e.sub);
    StandsFrame(prog, prog[l := Linked(prog[l], y)], e.sub, base, l);
    LinkedAs(x, y, e.subid);
  }

  lemma RelinkAlt(prog: seq<Inst>, e: Exp, base: nat, x: nat, y: nat)
    requires e.Alt? && base + Size(e) <= |prog| && Layout(prog, e, base, x)
    ensures var l := base + Size(e.left) + Size(e.right); Layout(prog[l := Linked(prog[l], y)], e, base, y)
  {
    hide Linked, First, Stands;
    var l := base + Size(e.left) + Size(e.right);
    var prog' := prog[l := Linked(prog[l], y)];
    StandsFrame(prog, prog', e.left, base, l);
    StandsFrame(prog, prog', e.right, base + Size(e.left), l);
    LinkedAs(x, y, 0);
  }

  lemma RelinkPostfix(prog: seq<Inst>, e: Exp, base: nat, x: nat, y: nat)
    requires e.Postfix? && base + Size(e) <= |prog| && Layout(prog, e, base, x)
    ensures var l := Last(e, base); Layout(prog[l := Linked(prog[l], y)], e, base, y)
  {
    hide Linked, First, Stands;
    var l: nat := Last(e, base);
    StandsFrame(prog, prog[l := Linked(prog[l], y)], e.sub, base, if e.op == QUEST then base + Size(e.sub) + 1 else base + Size(e.sub));
    LinkedAs(x, y, if e.op == QUEST then 0 else First(e.sub, base));
  }

  lemma LinkedAs(x: nat, y: nat, k: nat)
    ensures Linked(Rbra(k, x), y) == Rbra(k, y)
    ensures Linked(Nop(x), y) == Nop(y)
    ensures Linked(Or(k, x), y) == Or(k, y)
  {
  }

  lemma Free(prog: seq<Inst>, text: seq<Rune>, pc: nat, i: nat)
    requires pc < |prog| && i <= |text| && Passes(prog[pc], text, i)
    ensures Reach(prog, text, Conf(pc, i), Conf(prog[pc].next, i))
    ensures prog[pc].Or? ==> Reach(prog, text, Conf(pc, i), Conf(prog[pc].right, i))
  {
    ReachSelf(prog, text, Conf(pc, i));
    ReachStep(prog, text, Conf(pc, i), Conf(pc, i), Conf(prog[pc].next, i));
    if prog[pc].Or? {
      ReachStep(prog, text, Conf(pc, i), Conf(pc, i), Conf(prog[pc].right, i));
    }
  }

  lemma {:induction false} ReachTrans(prog: seq<Inst>, text: seq<Rune>, c: Conf, d: Conf, e: Conf)
    requires Reach(prog, text, c, d) && Reach(prog, text, d, e)
    ensures Reach(prog, text, c, e)
  {
    var p :| PathFromTo(prog, text, p, c, d);
    var q :| PathFromTo(prog, text, q, d, e);
    var r := p + q[1..];
    forall k | 0 <= k < |r| - 1 ensures Step(prog, text, r[k], r[k+1]) {
      if k < |p| - 1 {
        assert r[k] == p[k] && r[k+1] == p[k+1];
      } else {
        var l := k - (|p| - 1);
        assert r[k] == q[l] && r[k+1] == q[l+1];
      }
    }
    assert r[|r|-1] == e;
    assert PathFromTo(prog, text, r, c, e);
  }

  /** Every span of the language is a way through the code. */
  lemma {:induction false} CodeComplete(prog: seq<Inst>, text: seq<Rune>, e: Exp, base: nat, x: nat, i: nat, j: nat)
    requires WellMade(e) && Stands(prog, e, base, x) && (i, j) in Lang(e, text)
    ensures Reach(prog, text, Conf(First(e, base), i), Conf(x, j))
    decreases e, 2, 0
  {
    hide Reach, Stands, Lang, Linked;
    match e
    case Atom(inst) => AtomComplete(prog, text, e, base, x, i, j);
    case Group(sub, _) => GroupComplete(prog, text, e, base, x, i, j);
    case Cat(a, b) => CatComplete(prog, text, e, base, x, i, j);
    case Alt(a, b) => AltComplete(prog, text, e, base, x, i, j);
    case Postfix(op, sub) =>
      if op == QUEST {
        QuestComplete(prog, text, e, base, x, i, j);
      } else {
        ClosureComplete(prog, text, e, base, x, i, j);
      }
  }

  lemma {:induction false} CatComplete(prog: seq<Inst>, text: seq<Rune>, e: Exp, base: nat, x: nat, i: nat, j: nat)
    requires e.Cat? && WellMade(e) && Stands(prog, e, base, x) && (i, j) in Lang(e, text)
    ensures Reach(prog, text, Conf(First(e, base), i), Conf(x, j))
    decreases e, 1, 0
  {
    hide Reach, Stands, Linked;
    Parts(prog, e, base, x);
    var a, b := e.left, e.right;
    var k: nat :| (i, k) in Lang(a, text) && (k, j) in Lang(b, text);
    CodeComplete(prog, text, a, base, First(b, base + Size(a)), i, k);
    CodeComplete(prog, text, b, base + Size(a), x, k, j);
    ReachTrans(prog, text, Conf(First(a, base), i), Conf(First(b, base + Size(a)), k), Conf(x, j));
  }

  lemma AtomComplete(prog: seq<Inst>, text: seq<Rune>, e: Exp, base: nat, x: nat, i: nat, j: nat)
    requires e.Atom? && WellMade(e) && Stands(prog, e, base, x) && (i, j) in Lang(e, text)
    ensures Reach(prog, text, Conf(base, i), Conf(x, j))
  {
    hide Step, Reach, Lang, Linked;
    AtomStep(prog, text, e.inst, base, x, i, j);
    ReachSelf(prog, text, Conf(base, i));
    ReachStep(prog, text, Conf(base, i), Conf(base, i), Conf(x, j));
  }

  lemma {:induction false} GroupComplete(prog: seq<Inst>, text: seq<Rune>, e: Exp, base: nat, x: nat, i: nat, j: nat)
    requires e.Group? && WellMade(e) && Stands(prog, e, base, x) && (i, j) in Lang(e, text)
    ensures Reach(prog, text, Conf(First(e, base), i), Conf(x, j))
    decreases e, 1, 0
  {
    hide Reach;
    var sub, n := e.sub, base + Size(e.sub);
    LangInside(e, text);
    Free(prog, text, n + 1, i);
    Free(prog, text, n, j);
    CodeComplete(prog, text, sub, base, n, i, j);
    ReachTrans(prog, text, Conf(n + 1, i), Conf(First(sub, base), i), Conf(n, j));
    ReachTrans(prog, text, Conf(n + 1, i), Conf(n, j), Conf(x, j));
  }

  lemma {:induction false} AltComplete(prog: seq<Inst>, text: seq<Rune>, e: Exp, base: nat, x: nat, i: nat, j: nat)
    requires e.Alt? && WellMade(e) && Stands(prog, e, base, x) && (i, j) in Lang(e, text)
    ensures Reach(prog, text, Conf(First(e, base), i), Conf(x, j))
    decreases e, 1, 0
  {
    hide Reach, Stands;
    Parts(prog, e, base, x);
    var a, b, n := e.left, e.right, base + Size(e.left) + Size(e.right);
    LangInside(e, text);
    Free(prog, text, n + 1, i);
    Free(prog, text, n, j);
    var c := if (i, j) in Lang(a, text) then Conf(First(a, base), i) else Conf(First(b, base + Size(a)), i);
    hide Lang, Layout;
    if (i, j) in Lang(a, text) {
      CodeComplete(prog, text, a, base, n, i, j);
    } else {
      CodeComplete(prog, text, b, base + Size(a), n, i, j);
    }
    ReachTrans(prog, text, Conf(n + 1, i), c, Conf(n, j));
    ReachTrans(prog, text, Conf(n + 1, i), Conf(n, j), Conf(x, j));
  }

  lemma {:induction false} QuestComplete(prog: seq<Inst>, text: seq<Rune>, e: Exp, base: nat, x: nat, i: nat, j: nat)
    requires e.Postfix? && e.op == QUEST && WellMade(e) && Stands(prog, e, base, x) && (i, j) in Lang(e, text)
    ensures Reach(prog, text, Conf(First(e, base), i), Conf(x, j))
    decreases e, 1, 0
  {
    hide Reach, Stands;
    Parts(prog, e, base, x);
    var sub, n := e.sub, base + Size(e.sub);
    LangInside(e, text);
    Free(prog, text, n, i);
    Free(prog, text, n + 1, j);
    if (i, j) in Lang(sub, text) {
      CodeComplete(prog, text, sub, base, n + 1, i, j);
      ReachTrans(prog, text, Conf(n, i), Conf(First(sub, base), i), Conf(n + 1, j));
    }
    ReachTrans(prog, text, Conf(n, i), Conf(n + 1, j), Conf(x, j));
  }

  lemma {:induction false} ClosureComplete(prog: seq<Inst>, text: seq<Rune>, e: Exp, base: nat, x: nat, i: nat, j: nat)
    requires e.Postfix? && e.op != QUEST && WellMade(e) && Stands(prog, e, base, x) && (i, j) in Lang(e, text)
    ensures Reach(prog, text, Conf(First(e, base), i), Conf(x, j))
    decreases e, 1, 0
  {
    hide Reach, Stands, Lang, Power, Repeated;
    Parts(prog, e, base, x);
    var sub, n := e.sub, base + Size(e.sub);
    LangInside(e, text);
    Free(prog, text, n, i);
    Free(prog, text, n, j);
    RoundOrNot(e, text, i, j);
    hide Layout;
    if (i, j) in Repeated(Lang(sub, text)) {
      var m := Rounds(Lang(sub, text), i, j);
      LoopComplete(prog, text, sub, base, n, m, i, j);
      ReachTrans(prog, text, Conf(First(sub, base), i), Conf(n, j), Conf(x, j));
      if e.op == STAR {
        ReachTrans(prog, text, Conf(n, i), Conf(First(sub, base), i), Conf(x, j));
      }
    }
  }

  /** A closure matches what is repeated, or nothing. */
  lemma RoundOrNot(e: Exp, text: seq<Rune>, i: nat, j: nat)
    requires e.Postfix? && e.op != QUEST && WellMade(e) && (i, j) in Lang(e, text)
    ensures (i, j) in Repeated(Lang(e.sub, text)) || (e.op == STAR && i == j)
  {
    hide Power, Repeated;
  }

  lemma Rounds(r: Spans, i: nat, j: nat) returns (m: nat)
    requires (i, j) in Repeated(r)
    ensures (i, j) in Power(r, m)
  {
    m :| (i, j) in Power(r, m);
  }

  lemma FirstPower(r: Spans)
    ensures Power(r, 0) == r
  {
  }

  lemma OneRound(r: Spans, m: nat, i: nat, j: nat) returns (k: nat)
    requires m > 0 && (i, j) in Power(r, m)
    ensures (i, k) in r && (k, j) in Power(r, m - 1)
  {
    k :| (i, k) in r && (k, j) in Power(r, m - 1);
  }

  /** Going round the loop of a closure m + 1 times. */
  lemma {:induction false} LoopComplete(prog: seq<Inst>, text: seq<Rune>, sub: Exp, base: nat, n: nat, m: nat, i: nat, j: nat)
    requires WellMade(sub) && Stands(prog, sub, base, n) && n < |prog| && prog[n].Or? && prog[n].right == First(sub, base)
    requires (i, j) in Power(Lang(sub, text), m)
    ensures Reach(prog, text, Conf(First(sub, base), i), Conf(n, j))
    decreases sub, 3, m
  {
    hide Reach, Stands, Lang, Power;
    LangInside(sub, text);
    if m == 0 {
      assert (i, j) in Lang(sub, text) by { FirstPower(Lang(sub, text)); }
      CodeComplete(prog, text, sub, base, n, i, j);
    } else {
      var k := OneRound(Lang(sub, text), m, i, j);
      assert k <= |text|;
      CodeComplete(prog, text, sub, base, n, i, k);
      LoopComplete(prog, text, sub, base, n, m - 1, k, j);
      Free(prog, text, n, k);
      ReachTrans(prog, text, Conf(First(sub, base), i), Conf(n, k), Conf(First(sub, base), k));
      ReachTrans(prog, text, Conf(First(sub, base), i), Conf(First(sub, base), k), Conf(n, j));
    }
  }

  /** An operand's instruction steps exactly over the spans of its language. */
  lemma AtomStep(prog: seq<Inst>, text: seq<Rune>, inst: Inst, base: nat, x: nat, i: nat, j: nat)
    requires base < |prog| && IsOperand(inst) && prog[base] == Linked(inst, x)
    ensures (i, j) in Lang(Atom(inst), text) <==> Step(prog, text, Conf(base, i), Conf(x, j))
  {
  }

  /** An instruction that always passes control on. */
  predicate AlwaysPasses(inst: Inst)
  {
    inst.Lbra? || inst.Rbra? || inst.Or? || inst.Nop?
  }

  lemma PassOn(prog: seq<Inst>, text: seq<Rune>, p: seq<Conf>, k: nat)
    requires IsPath(prog, text, p) && k + 1 < |p| && p[k].pc < |prog| && AlwaysPasses(prog[p[k].pc])
    ensures p[k+1].i == p[k].i <= |text|
    ensures p[k+1].pc == prog[p[k].pc].next || (prog[p[k].pc].Or? && p[k+1].pc == prog[p[k].pc].right)
  {
    assert Step(prog, text, p[k], p[k+1]);
  }

  lemma Suffix(prog: seq<Inst>, text: seq<Rune>, p: seq<Conf>, k: nat)
    requires IsPath(prog, text, p) && k < |p|
    ensures IsPath(prog, text, p[k..]) && |p[k..]| == |p| - k && p[k..][0] == p[k] && p[k..][|p|-k-1] == p[|p|-1]
    ensures forall l :: 0 <= l < |p| - k ==> p[k..][l] == p[k + l]
  {
    var q := p[k..];
    forall l | 0 <= l < |q| - 1 ensures Step(prog, text, q[l], q[l+1]) {
      assert q[l] == p[k+l] && q[l+1] == p[k+l+1];
    }
  }

  /** A path that begins in the code of e and ends outside. */
  ghost predicate Leaves(prog: seq<Inst>, text: seq<Rune>, e: Exp, base: nat, p: seq<Conf>)
  {
    IsPath(prog, text, p) && |p| > 0 && p[0].pc == First(e, base) && !(base <= p[|p|-1].pc < base + Size(e))
  }

  /** The path is at x in place k, over a span of r. */
  ghost predicate OutAt(p: seq<Conf>, k: nat, x: nat, r: Spans)
  {
    0 < k < |p| && p[k].pc == x && (p[0].i, p[k].i) in r
  }

  /** A path that leaves the code of e does so at x, over a span of the language. */
  lemma {:induction false} CodeSound(prog: seq<Inst>, text: seq<Rune>, e: Exp, base: nat, x: nat, p: seq<Conf>) returns (k: nat)
    requires WellMade(e) && Stands(prog, e, base, x) && Leaves(prog, text, e, base, p)
    ensures OutAt(p, k, x, Lang(e, text))
    decreases e, |p|, 2
  {
    match e
    case Atom(inst) => k := AtomSound(prog, text, e, base, x, p);
    case Group(sub, id) => k := GroupSound(prog, text, e, base, x, p);
    case Cat(a, b) => k := CatSound(prog, text, e, base, x, p);
    case Alt(a, b) => k := AltSound(prog, text, e, base, x, p);
    case Postfix(op, sub) =>
      if op == QUEST {
        k := QuestSound(prog, text, e, base, x, p);
      } else if op == STAR {
        k := StarSound(prog, text, e, base, x, p);
      } else {
        k := PlusSound(prog, text, e, base, x, p);
      }
  }

  lemma AtomSound(prog: seq<Inst>, text: seq<Rune>, e: Exp, base: nat, x: nat, p: seq<Conf>) returns (k: nat)
    requires e.Atom? && WellMade(e) && Stands(prog, e, base, x) && Leaves(prog, text, e, base, p)
    ensures OutAt(p, k, x, Lang(e, text))
  {
    hide Takes, Passes, Linked;
    assert Step(prog, text, p[0], p[1]);
    assert p[1].pc == x by { AtomNext(prog, text, e.inst, base, x, p[0], p[1]); }
    AtomStep(prog, text, e.inst, base, x, p[0].i, p[1].i);
    k := 1;
  }

  lemma AtomNext(prog: seq<Inst>, text: seq<Rune>, inst: Inst, base: nat, x: nat, c: Conf, d: Conf)
    requires base < |prog| && IsOperand(inst) && prog[base] == Linked(inst, x) && Step(prog, text, c, d) && c.pc == base
    ensures d.pc == x
  {
  }

  lemma {:induction false} GroupSound(prog: seq<Inst>, text: seq<Rune>, e: Exp, base: nat, x: nat, p: seq<Conf>) returns (k: nat)
    requires e.Group? && WellMade(e) && Stands(prog, e, base, x) && Leaves(prog, text, e, base, p)
    ensures OutAt(p, k, x, Lang(e, text))
    decreases e, |p|, 1
  {
    hide IsPath, Passes;
    PassOn(prog, text, p, 0);
    Suffix(prog, text, p, 1);
    k := CodeSound(prog, text, e.sub, base, base + Size(e.sub), p[1..]);
    PassOn(prog, text, p, 1 + k);
    k := k + 2;
  }

  lemma {:induction false} CatSound(prog: seq<Inst>, text: seq<Rune>, e: Exp, base: nat, x: nat, p: seq<Conf>) returns (k: nat)
    requires e.Cat? && WellMade(e) && Stands(prog, e, base, x) && Leaves(prog, text, e, base, p)
    ensures OutAt(p, k, x, Lang(e, text))
    decreases e, |p|, 1
  {
    hide IsPath, Stands;
    Parts(prog, e, base, x);
    var k1 := CodeSound(prog, text, e.left, base, First(e.right, base + Size(e.left)), p);
    Suffix(prog, text, p, k1);
    var k2 := CodeSound(prog, text, e.right, base + Size(e.left), x, p[k1..]);
    k := k1 + k2;
    assert (p[k1].i, p[k].i) in Lang(e.right, text);
  }

  lemma {:induction false} AltSound(prog: seq<Inst>, text: seq<Rune>, e: Exp, base: nat, x: nat, p: seq<Conf>) returns (k: nat)
    requires e.Alt? && WellMade(e) && Stands(prog, e, base, x) && Leaves(prog, text, e, base, p)
    ensures OutAt(p, k, x, Lang(e, text))
    decreases e, |p|, 1
  {
    hide IsPath, Passes, Stands;
    Parts(prog, e, base, x);
    var n := base + Size(e.left) + Size(e.right);
    PassOn(prog, text, p, 0);
    Suffix(prog, text, p, 1);
    if p[1].pc == First(e.left, base) {
      k := CodeSound(prog, text, e.left, base, n, p[1..]);
    } else {
      k := CodeSound(prog, text, e.right, base + Size(e.left), n, p[1..]);
    }
    PassOn(prog, text, p, 1 + k);
    k := k + 2;
  }

  lemma {:induction false} QuestSound(prog: seq<Inst>, text: seq<Rune>, e: Exp, base: nat, x: nat, p: seq<Conf>) returns (k: nat)
    requires e.Postfix? && e.op == QUEST && WellMade(e) && Stands(prog, e, base, x) && Leaves(prog, text, e, base, p)
    ensures OutAt(p, k, x, Lang(e, text))
    decreases e, |p|, 1
  {
    hide IsPath, Passes, Stands;
    Parts(prog, e, base, x);
    var n := base + Size(e.sub);
    PassOn(prog, text, p, 0);
    k := 0;
    if p[1].pc != n + 1 {
      Suffix(prog, text, p, 1);
      k := CodeSound(prog, text, e.sub, base, n + 1, p[1..]);
    }
    PassOn(prog, text, p, 1 + k);
    k := k + 2;
  }

  lemma {:induction false} StarSound(prog: seq<Inst>, text: seq<Rune>, e: Exp, base: nat, x: nat, p: seq<Conf>) returns (k: nat)
    requires e.Postfix? && e.op == STAR && WellMade(e) && Stands(prog, e, base, x) && Leaves(prog, text, e, base, p)
    ensures OutAt(p, k, x, Lang(e, text))
    decreases e, |p|, 1
  {
    hide IsPath, Passes, Stands, Repeated;
    Parts(prog, e, base, x);
    PassOn(prog, text, p, 0);
    k := 1;
    if p[1].pc != x {
      Suffix(prog, text, p, 1);
      k := LoopSound(prog, text, e.sub, base, x, p[1..]);
      k := k + 1;
    }
  }

  lemma {:induction false} PlusSound(prog: seq<Inst>, text: seq<Rune>, e: Exp, base: nat, x: nat, p: seq<Conf>) returns (k: nat)
    requires e.Postfix? && e.op == PLUS && WellMade(e) && Stands(prog, e, base, x) && Leaves(prog, text, e, base, p)
    ensures OutAt(p, k, x, Lang(e, text))
    decreases e, |p|, 1
  {
    hide IsPath, Passes, Stands, Repeated;
    Parts(prog, e, base, x);
    k := LoopSound(prog, text, e.sub, base, x, p);
  }

  /** A path round the loop of a closure leaves it at x after one or more turns. */
  lemma {:induction false} LoopSound(prog: seq<Inst>, text: seq<Rune>, sub: Exp, base: nat, x: nat, p: seq<Conf>) returns (k: nat)
    requires WellMade(sub) && Stands(prog, sub, base, base + Size(sub))
    requires base + Size(sub) < |prog| && prog[base + Size(sub)] == Or(First(sub, base), x)
    requires Leaves(prog, text, sub, base, p) && p[|p|-1].pc != base + Size(sub)
    ensures OutAt(p, k, x, Repeated(Lang(sub, text)))
    decreases sub, |p|, 3
  {
    hide IsPath, Passes, Stands, Lang, Repeated;
    var r := Lang(sub, text);
    k := CodeSound(prog, text, sub, base, base + Size(sub), p);
    RepeatedOnce(r, p[0].i, p[k].i);
    PassOn(prog, text, p, k);
    if p[k+1].pc == x {
      k := k + 1;
    } else {
      Suffix(prog, text, p, k + 1);
      var k2 := LoopSound(prog, text, sub, base, x, p[k+1..]);
      RepeatedThen(r, p[0].i, p[k].i, p[k+1+k2].i);
      k := k + 1 + k2;
    }
  }

  // Ranks: along every next link of the code the rank descends, down to that of x.

  function RankAt(e: Exp, base: nat, r: nat, k: nat): (s: nat)
    requires base <= k < base + Size(e)
    ensures r < s <= r + Size(e)
  {
    match e
    case Atom(_) => r + 1
    case Group(sub, _) =>
      var n := base + Size(sub);
      if k < n then RankAt(sub, base, r + 1, k) else if k == n then r + 1 else r + Size(sub) + 2
    case Cat(a, b) =>
      var n := base + Size(a);
      InRange(b, n);
      if k < n then RankAt(a, base, RankAt(b, n, r, First(b, n)), k) else RankAt(b, n, r, k)
    case Alt(a, b) =>
      var n := base + Size(a) + Size(b);
      if k < base + Size(a) then RankAt(a, base, r + 1, k)
      else if k < n then RankAt(b, base + Size(a), r + 1, k)
      else if k == n then r + 1 else r + Size(a) + Size(b) + 2
    case Postfix(op, sub) =>
      var n := base + Size(sub);
      if k < n then RankAt(sub, base, r + 1, k)
      else if op == QUEST && k == n then r + Size(sub) + 2 else r + 1
  }

  /** The code never begins with a NOP. */
  lemma {:induction false} FirstIsReal(prog: seq<Inst>, e: Exp, base: nat, x: nat)
    requires WellMade(e) && Stands(prog, e, base, x)
    ensures base <= First(e, base) < base + Size(e) <= |prog| && !prog[First(e, base)].Nop?
  {
    InRange(e, base);
    match e
    case Atom(_) =>
    case Group(sub, _) =>
    case Cat(a, b) => FirstIsReal(prog, a, base, First(b, base + Size(a)));
    case Alt(a, b) =>
    case Postfix(op, sub) =>
      if op == PLUS { FirstIsReal(prog, sub, base, base + Size(sub)); }
  }

  /** The instruction at k has its next link in the program and descending, and no right link to a NOP. */
  ghost predicate GoodLinks(prog: seq<Inst>, rank: seq<nat>, k: nat)
    requires |rank| == |prog| && k < |prog|
  {
    && !prog[k].End? && prog[k].next < |prog| && rank[prog[k].next] < rank[k]
    && (prog[k].Or? ==> prog[k].right < |prog| && !prog[prog[k].right].Nop?)
  }

  /** The ranks of the code of e stand at base, above the rank of its exit x. */
  ghost predicate RanksStand(rank: seq<nat>, e: Exp, base: nat, x: nat)
  {
    && base + Size(e) <= |rank| && x < |rank|
    && forall k :: base <= k < base + Size(e) ==> rank[k] == RankAt(e, base, rank[x], k)
  }

  /** Every link of the code is a good one. */
  lemma {:induction false} LinksAreGood(prog: seq<Inst>, rank: seq<nat>, e: Exp, base: nat, x: nat, k: nat)
    requires WellMade(e) && Stands(prog, e, base, x) && |rank| == |prog|
    requires RanksStand(rank, e, base, x) && base <= k < base + Size(e)
    ensures GoodLinks(prog, rank, k)
    decreases e, 1
  {
    hide *;
    match e
    case Atom(_) => AtomLinks(prog, rank, e, base, x, k);
    case Group(_, _) => GroupLinks(prog, rank, e, base, x, k);
    case Cat(_, _) => CatLinks(prog, rank, e, base, x, k);
    case Alt(_, _) => AltLinks(prog, rank, e, base, x, k);
    case Postfix(_, _) => PostfixLinks(prog, rank, e, base, x, k);
  }

  lemma AtomLinks(prog: seq<Inst>, rank: seq<nat>, e: Exp, base: nat, x: nat, k: nat)
    requires e.Atom? && WellMade(e) && Stands(prog, e, base, x) && |rank| == |prog|
    requires RanksStand(rank, e, base, x) && base <= k < base + Size(e)
    ensures GoodLinks(prog, rank, k)
    decreases e, 0
  {
    assert prog[base] == Linked(e.inst, x);
  }

  lemma {:induction false} GroupLinks(prog: seq<Inst>, rank: seq<nat>, e: Exp, base: nat, x: nat, k: nat)
    requires e.Group? && WellMade(e) && Stands(prog, e, base, x) && |rank| == |prog|
    requires RanksStand(rank, e, base, x) && base <= k < base + Size(e)
    ensures GoodLinks(prog, rank, k)
    decreases e, 0
  {
    hide Stands;
    Parts(prog, e, base, x);
    var n := base + Size(e.sub);
    FirstIsReal(prog, e.sub, base, n);
    if k < n { LinksAreGood(prog, rank, e.sub, base, n, k); }
  }

  lemma {:induction false} CatLinks(prog: seq<Inst>, rank: seq<nat>, e: Exp, base: nat, x: nat, k: nat)
    requires e.Cat? && WellMade(e) && Stands(prog, e, base, x) && |rank| == |prog|
    requires RanksStand(rank, e, base, x) && base <= k < base + Size(e)
    ensures GoodLinks(prog, rank, k)
    decreases e, 0
  {
    hide Stands;
    Parts(prog, e, base, x);
    var n := base + Size(e.left);
    FirstIsReal(prog, e.right, n, x);
    if k < n {
      LinksAreGood(prog, rank, e.left, base, First(e.right, n), k);
    } else {
      LinksAreGood(prog, rank, e.right, n, x, k);
    }
  }

  lemma {:induction false} AltLinks(prog: seq<Inst>, rank: seq<nat>, e: Exp, base: nat, x: nat, k: nat)
    requires e.Alt? && WellMade(e) && Stands(prog, e, base, x) && |rank| == |prog|
    requires RanksStand(rank, e, base, x) && base <= k < base + Size(e)
    ensures GoodLinks(prog, rank, k)
    decreases e, 0
  {
    hide Stands;
    Parts(prog, e, base, x);
    var m := base + Size(e.left);
    var n := m + Size(e.right);
    FirstIsReal(prog, e.left, base, n);
    FirstIsReal(prog, e.right, m, n);
    if k < m {
      LinksAreGood(prog, rank, e.left, base, n, k);
    } else if k < n {
      LinksAreGood(prog, rank, e.right, m, n, k);
    }
  }

  lemma {:induction false} PostfixLinks(prog: seq<Inst>, rank: seq<nat>, e: Exp, base: nat, x: nat, k: nat)
    requires e.Postfix? && WellMade(e) && Stands(prog, e, base, x) && |rank| == |prog|
    requires RanksStand(rank, e, base, x) && base <= k < base + Size(e)
    ensures GoodLinks(prog, rank, k)
    decreases e, 0
  {
    hide Stands;
    Parts(prog, e, base, x);
    var n := base + Size(e.sub);
    var y := if e.op == QUEST then n + 1 else n;
    FirstIsReal(prog, e.sub, base, y);
    if k < n { LinksAreGood(prog, rank, e.sub, base, y, k); }
  }
}
