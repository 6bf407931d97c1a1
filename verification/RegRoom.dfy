/** How much room the simulator's lists need for the program of an expression. */
module RegRoom {
  import opened RegProg
  import opened RegLang
  import opened RegCode
  import opened RegExec
  import opened RegOptimize
  import opened RegParse

  /** The expression matches the empty span of some text. */
  predicate MayBeEmpty(e: Exp)
  {
    match e
    case Atom(inst) => MayPass(inst)
    case Group(sub, _) => MayBeEmpty(sub)
    case Cat(a, b) => MayBeEmpty(a) && MayBeEmpty(b)
    case Alt(a, b) => MayBeEmpty(a) || MayBeEmpty(b)
    case Postfix(op, sub) => op != PLUS || MayBeEmpty(sub)
  }

  /** No STAR or PLUS stands over an operand that matches the empty span. */
  predicate LoopsTake(e: Exp)
  {
    match e
    case Atom(_) => true
    case Group(sub, _) => LoopsTake(sub)
    case Cat(a, b) => LoopsTake(a) && LoopsTake(b)
    case Alt(a, b) => LoopsTake(a) && LoopsTake(b)
    case Postfix(op, sub) => LoopsTake(sub) && (op == QUEST || !MayBeEmpty(sub))
  }

  // What MayBeEmpty means.

  /** No span runs backwards. */
  ghost predicate Forward(r: Spans)
  {
    forall i: nat, j: nat :: (i, j) in r ==> i <= j
  }

  lemma {:induction false} PowerForward(r: Spans, n: nat)
    requires Forward(r)
    ensures Forward(Power(r, n))
    ensures forall i: nat :: (i, i) in Power(r, n) ==> (i, i) in r
  {
    if n > 0 {
      PowerForward(r, n - 1);
      forall i: nat | (i, i) in Power(r, n) ensures (i, i) in r {
        var k: nat :| (i, k) in r && (k, i) in Power(r, n - 1);
      }
    }
  }

  lemma {:induction false} LangForward(e: Exp, text: seq<Rune>)
    requires WellMade(e)
    ensures Forward(Lang(e, text))
  {
    match e
    case Atom(_) =>
    case Group(sub, _) => LangForward(sub, text);
    case Cat(a, b) => LangForward(a, text); LangForward(b, text);
    case Alt(a, b) => LangForward(a, text); LangForward(b, text);
    case Postfix(_, sub) =>
      LangForward(sub, text);
      forall n: nat ensures Forward(Power(Lang(sub, text), n)) { PowerForward(Lang(sub, text), n); }
  }

  lemma {:induction false} EmptySpan(e: Exp, text: seq<Rune>, i: nat)
    requires WellMade(e) && (i, i) in Lang(e, text)
    ensures MayBeEmpty(e)
  {
    match e
    case Atom(_) =>
    case Group(sub, _) => EmptySpan(sub, text, i);
    case Cat(a, b) =>
      var k: nat :| (i, k) in Lang(a, text) && (k, i) in Lang(b, text);
      LangForward(a, text);
      LangForward(b, text);
      EmptySpan(a, text, i);
      EmptySpan(b, text, i);
    case Alt(a, b) => if (i, i) in Lang(a, text) { EmptySpan(a, text, i); } else { EmptySpan(b, text, i); }
    case Postfix(op, sub) =>
      if op == PLUS {
        var n: nat :| (i, i) in Power(Lang(sub, text), n);
        LangForward(sub, text);
        PowerForward(Lang(sub, text), n);
        EmptySpan(sub, text, i);
      }
  }

  lemma {:induction false} EmptyText(e: Exp)
    requires WellMade(e) && MayBeEmpty(e)
    ensures (0, 0) in Lang(e, [])
  {
    match e
    case Atom(_) =>
    case Group(sub, _) => EmptyText(sub);
    case Cat(a, b) => EmptyText(a); EmptyText(b);
    case Alt(a, b) => if MayBeEmpty(a) { EmptyText(a); } else { EmptyText(b); }
    case Postfix(op, sub) =>
      if op == PLUS {
        EmptyText(sub);
        RepeatedOnce(Lang(sub, []), 0, 0);
      }
  }

  /** MayBeEmpty holds just of the expressions that match the empty span somewhere in some text. */
  lemma MayBeEmptyExactly(e: Exp)
    requires WellMade(e)
    ensures MayBeEmpty(e) <==> exists text: seq<Rune>, i: nat :: (i, i) in Lang(e, text)
  {
    hide Lang;
    if MayBeEmpty(e) { EmptyText(e); }
    if text: seq<Rune>, i: nat :| (i, i) in Lang(e, text) { EmptySpan(e, text, i); }
  }

  // What the instructions of an expression cost.

  /** The least cost of the first instruction of e when the one it leads out to costs a. */
  function FirstCost(e: Exp, a: nat): nat
    decreases e, 0
  {
    match e
    case Atom(inst) => if MayPass(inst) then a else 0
    case Group(sub, _) => FirstCost(sub, a)
    case Cat(x, y) => FirstCost(x, FirstCost(y, a))
    case Alt(x, y) => 1 + FirstCost(x, a) + FirstCost(y, a)
    case Postfix(op, sub) =>
      if op == QUEST then 1 + FirstCost(sub, a) + a else if op == PLUS then FirstCost(sub, LoopCost(sub, a)) else LoopCost(sub, a)
  }

  /** The cost of the OR of a loop round sub. */
  function LoopCost(sub: Exp, a: nat): nat
    decreases sub, 1
  {
    1 + FirstCost(sub, 0) + a
  }

  /** The cost of the instruction at k of the code of e at base. */
  function CostAt(e: Exp, base: nat, a: nat, k: nat): nat
    requires base <= k < base + Size(e)
  {
    match e
    case Atom(_) => FirstCost(e, a)
    case Group(sub, _) =>
      var n := base + Size(sub);
      if k < n then CostAt(sub, base, a, k) else if k == n then a else FirstCost(sub, a)
    case Cat(x, y) =>
      var n := base + Size(x);
      if k < n then CostAt(x, base, FirstCost(y, a), k) else CostAt(y, n, a, k)
    case Alt(x, y) =>
      var n := base + Size(x) + Size(y);
      if k < base + Size(x) then CostAt(x, base, a, k)
      else if k < n then CostAt(y, base + Size(x), a, k)
      else if k == n then a else FirstCost(e, a)
    case Postfix(op, sub) =>
      var n := base + Size(sub);
      if op == QUEST then if k < n then CostAt(sub, base, a, k) else if k == n then FirstCost(e, a) else a
      else if k < n then CostAt(sub, base, LoopCost(sub, a), k) else LoopCost(sub, a)
  }

  /** A thread for each instruction of e, and all that these add. */
  function RoomOf(e: Exp, a: nat): nat
  {
    match e
    case Atom(_) => 1 + FirstCost(e, a)
    case Group(sub, _) => RoomOf(sub, a) + (1 + a) + (1 + FirstCost(sub, a))
    case Cat(x, y) => RoomOf(x, FirstCost(y, a)) + RoomOf(y, a)
    case Alt(x, y) => RoomOf(x, a) + RoomOf(y, a) + (1 + a) + (1 + FirstCost(e, a))
    case Postfix(op, sub) =>
      if op == QUEST then RoomOf(sub, a) + (1 + FirstCost(e, a)) + (1 + a)
      else RoomOf(sub, LoopCost(sub, a)) + (1 + LoopCost(sub, a))
  }

  /** The room the program of e needs, with its END. */
  function Room(e: Exp): nat
  {
    RoomOf(e, 0) + 1
  }

  lemma {:induction false} CostOfFirst(e: Exp, base: nat, a: nat)
    ensures base <= First(e, base) < base + Size(e) && CostAt(e, base, a, First(e, base)) == FirstCost(e, a)
  {
    InRange(e, base);
    match e
    case Atom(_) =>
    case Group(_, _) =>
    case Cat(x, y) => InRange(x, base); CostOfFirst(x, base, FirstCost(y, a));
    case Alt(_, _) =>
    case Postfix(op, sub) => if op == PLUS { InRange(sub, base); CostOfFirst(sub, base, LoopCost(sub, a)); }
  }

  /** What cannot be passed through costs the same wherever it leads; nothing costs less for leading to what costs more. */
  lemma {:induction false} FirstCostMono(e: Exp, a: nat, b: nat)
    requires a <= b
    ensures FirstCost(e, a) <= FirstCost(e, b)
    ensures !MayBeEmpty(e) ==> FirstCost(e, a) == FirstCost(e, b)
  {
    match e
    case Atom(_) =>
    case Group(sub, _) => FirstCostMono(sub, a, b);
    case Cat(x, y) => FirstCostMono(y, a, b); FirstCostMono(x, FirstCost(y, a), FirstCost(y, b));
    case Alt(x, y) => FirstCostMono(x, a, b); FirstCostMono(y, a, b);
    case Postfix(op, sub) =>
      if op == QUEST { FirstCostMono(sub, a, b); } else { FirstCostMono(sub, LoopCost(sub, a), LoopCost(sub, b)); }
  }

  // The costs are right when every loop takes a character.

  /** The costs of the code of e stand at base, above the cost of its exit x. */
  ghost predicate CostsStand(cost: seq<nat>, e: Exp, base: nat, x: nat)
  {
    && base + Size(e) <= |cost| && x < |cost|
    && forall k :: base <= k < base + Size(e) ==> cost[k] == CostAt(e, base, cost[x], k)
  }

  /** The instruction costs enough for those it leads to. */
  ghost predicate Paid(prog: seq<Inst>, cost: seq<nat>, k: nat)
    requires |cost| == |prog| && k < |prog|
  {
    MayPass(prog[k]) ==>
      && prog[k].next < |prog| && cost[k] >= cost[prog[k].next]
      && (prog[k].Or? ==> prog[k].right < |prog| && cost[k] >= 1 + cost[prog[k].right] + cost[prog[k].next])
  }

  lemma {:induction false} CodeIsPaid(prog: seq<Inst>, cost: seq<nat>, e: Exp, base: nat, x: nat, k: nat)
    requires WellMade(e) && LoopsTake(e) && Stands(prog, e, base, x) && |cost| == |prog|
    requires CostsStand(cost, e, base, x) && base <= k < base + Size(e)
    ensures Paid(prog, cost, k)
    decreases e, 1
  {
    hide *;
    match e
    case Atom(_) => AtomPaid(prog, cost, e, base, x, k);
    case Group(_, _) => GroupPaid(prog, cost, e, base, x, k);
    case Cat(_, _) => CatPaid(prog, cost, e, base, x, k);
    case Alt(_, _) => AltPaid(prog, cost, e, base, x, k);
    case Postfix(_, _) => PostfixPaid(prog, cost, e, base, x, k);
  }

  lemma AtomPaid(prog: seq<Inst>, cost: seq<nat>, e: Exp, base: nat, x: nat, k: nat)
    requires e.Atom? && WellMade(e) && LoopsTake(e) && Stands(prog, e, base, x) && |cost| == |prog|
    requires CostsStand(cost, e, base, x) && base <= k < base + Size(e)
    ensures Paid(prog, cost, k)
    decreases e, 0
  {
    assert prog[base] == Linked(e.inst, x);
  }

  lemma {:induction false} GroupPaid(prog: seq<Inst>, cost: seq<nat>, e: Exp, base: nat, x: nat, k: nat)
    requires e.Group? && WellMade(e) && LoopsTake(e) && Stands(prog, e, base, x) && |cost| == |prog|
    requires CostsStand(cost, e, base, x) && base <= k < base + Size(e)
    ensures Paid(prog, cost, k)
    decreases e, 0
  {
    hide Stands, FirstCost;
    Parts(prog, e, base, x);
    CostOfFirst(e.sub, base, cost[x]);
    if k < base + Size(e.sub) { CodeIsPaid(prog, cost, e.sub, base, base + Size(e.sub), k); }
  }

  lemma {:induction false} CatPaid(prog: seq<Inst>, cost: seq<nat>, e: Exp, base: nat, x: nat, k: nat)
    requires e.Cat? && WellMade(e) && LoopsTake(e) && Stands(prog, e, base, x) && |cost| == |prog|
    requires CostsStand(cost, e, base, x) && base <= k < base + Size(e)
    ensures Paid(prog, cost, k)
    decreases e, 0
  {
    hide Stands, FirstCost, Paid;
    Parts(prog, e, base, x);
    var n := base + Size(e.left);
    CostOfFirst(e.right, n, cost[x]);
    assert CostsStand(cost, e.right, n, x);
    if k < n {
      CodeIsPaid(prog, cost, e.left, base, First(e.right, n), k);
    } else {
      CodeIsPaid(prog, cost, e.right, n, x, k);
    }
  }

  lemma {:induction false} AltPaid(prog: seq<Inst>, cost: seq<nat>, e: Exp, base: nat, x: nat, k: nat)
    requires e.Alt? && WellMade(e) && LoopsTake(e) && Stands(prog, e, base, x) && |cost| == |prog|
    requires CostsStand(cost, e, base, x) && base <= k < base + Size(e)
    ensures Paid(prog, cost, k)
    decreases e, 0
  {
    hide Stands;
    Parts(prog, e, base, x);
    var m := base + Size(e.left);
    var n := m + Size(e.right);
    CostOfFirst(e.left, base, cost[x]);
    CostOfFirst(e.right, m, cost[x]);
    if k < m {
      CodeIsPaid(prog, cost, e.left, base, n, k);
    } else if k < n {
      CodeIsPaid(prog, cost, e.right, m, n, k);
    }
  }

  lemma {:induction false} PostfixPaid(prog: seq<Inst>, cost: seq<nat>, e: Exp, base: nat, x: nat, k: nat)
    requires e.Postfix? && WellMade(e) && LoopsTake(e) && Stands(prog, e, base, x) && |cost| == |prog|
    requires CostsStand(cost, e, base, x) && base <= k < base + Size(e)
    ensures Paid(prog, cost, k)
    decreases e, 0
  {
    hide Stands, Paid, FirstCost, Layout, Linked, First;
    var n := base + Size(e.sub);
    if k >= n {
      OrPaid(prog, cost, e, base, x, k);
    } else if e.op == QUEST {
      QuestStands(prog, e, base, x);
      assert CostsStand(cost, e.sub, base, n + 1);
      CodeIsPaid(prog, cost, e.sub, base, n + 1, k);
    } else {
      LoopStands(prog, e, base, x);
      assert CostsStand(cost, e.sub, base, n);
      CodeIsPaid(prog, cost, e.sub, base, n, k);
    }
  }

  lemma QuestStands(prog: seq<Inst>, e: Exp, base: nat, x: nat)
    requires e.Postfix? && e.op == QUEST && Stands(prog, e, base, x)
    ensures var n := base + Size(e.sub);
      && n + 1 < |prog| && Stands(prog, e.sub, base, n + 1) && prog[n] == Or(First(e.sub, base), n + 1) && prog[n+1] == Nop(x)
  {
    hide Stands;
    Parts(prog, e, base, x);
  }

  lemma LoopStands(prog: seq<Inst>, e: Exp, base: nat, x: nat)
    requires e.Postfix? && e.op != QUEST && Stands(prog, e, base, x)
    ensures var n := base + Size(e.sub); n < |prog| && Stands(prog, e.sub, base, n) && prog[n] == Or(First(e.sub, base), x)
  {
    hide Stands;
    Parts(prog, e, base, x);
  }

  /** The OR of a postfix operator, and the NOP of a QUEST. */
  lemma OrPaid(prog: seq<Inst>, cost: seq<nat>, e: Exp, base: nat, x: nat, k: nat)
    requires e.Postfix? && LoopsTake(e) && Stands(prog, e, base, x) && |cost| == |prog|
    requires CostsStand(cost, e, base, x) && base + Size(e.sub) <= k < base + Size(e)
    ensures Paid(prog, cost, k)
  {
    hide Stands, Layout, Linked, First;
    var n := base + Size(e.sub);
    if e.op == QUEST {
      QuestStands(prog, e, base, x);
      CostOfFirst(e.sub, base, cost[x]);
    } else {
      LoopStands(prog, e, base, x);
      CostOfFirst(e.sub, base, LoopCost(e.sub, cost[x]));
      FirstCostMono(e.sub, 0, LoopCost(e.sub, cost[x]));
    }
  }

  // No costs are less, and with a loop that takes nothing there are none.

  /** The sum of the costs of n instructions from base on, with one more for each. */
  function Sum(cost: seq<nat>, base: nat, n: nat): nat
    requires base + n <= |cost|
  {
    if n == 0 then 0 else Sum(cost, base, n - 1) + 1 + cost[base + n - 1]
  }

  lemma {:induction false} SumJoin(cost: seq<nat>, base: nat, m: nat, n: nat)
    requires base + m + n <= |cost|
    ensures Sum(cost, base, m + n) == Sum(cost, base, m) + Sum(cost, base + m, n)
  {
    if n > 0 { SumJoin(cost, base, m, n - 1); }
  }

  lemma SumOne(cost: seq<nat>, base: nat, m: nat)
    requires base + m < |cost|
    ensures Sum(cost, base, m + 1) == Sum(cost, base, m) + 1 + cost[base + m]
    ensures base + m + 1 < |cost| ==> Sum(cost, base, m + 2) == Sum(cost, base, m) + 2 + cost[base + m] + cost[base + m + 1]
  {
  }

  /** All of e's instructions are paid for. */
  ghost predicate PaidIn(prog: seq<Inst>, cost: seq<nat>, e: Exp, base: nat, x: nat)
  {
    |cost| == |prog| && x < |prog| && base + Size(e) <= |prog| && forall k :: base <= k < base + Size(e) ==> Paid(prog, cost, k)
  }

  /** What the costs of e's instructions come to, whatever they are. */
  ghost predicate CostsEnough(cost: seq<nat>, e: Exp, base: nat, x: nat)
  {
    && x < |cost| && base + Size(e) <= |cost| && First(e, base) < |cost|
    && LoopsTake(e) && cost[First(e, base)] >= FirstCost(e, cost[x]) && Sum(cost, base, Size(e)) >= RoomOf(e, cost[x])
  }

  /** What can be passed through costs at least what it leads to. */
  lemma {:induction false} FirstCostPasses(e: Exp, a: nat)
    requires MayBeEmpty(e)
    ensures FirstCost(e, a) >= a
  {
    match e
    case Atom(_) =>
    case Group(sub, _) => FirstCostPasses(sub, a);
    case Cat(x, y) => FirstCostPasses(y, a); FirstCostPasses(x, FirstCost(y, a));
    case Alt(x, y) => if MayBeEmpty(x) { FirstCostPasses(x, a); } else { FirstCostPasses(y, a); }
    case Postfix(op, sub) => if op == PLUS { FirstCostPasses(sub, LoopCost(sub, a)); }
  }

  lemma {:induction false} RoomMono(e: Exp, a: nat, b: nat)
    requires a <= b
    ensures RoomOf(e, a) <= RoomOf(e, b)
  {
    FirstCostMono(e, a, b);
    match e
    case Atom(_) =>
    case Group(sub, _) => RoomMono(sub, a, b);
    case Cat(x, y) =>
      FirstCostMono(y, a, b);
      RoomMono(x, FirstCost(y, a), FirstCost(y, b));
      RoomMono(y, a, b);
    case Alt(x, y) => RoomMono(x, a, b); RoomMono(y, a, b);
    case Postfix(op, sub) =>
      if op == QUEST { RoomMono(sub, a, b); } else { RoomMono(sub, LoopCost(sub, a), LoopCost(sub, b)); }
  }

  lemma {:induction false} CodeCosts(prog: seq<Inst>, cost: seq<nat>, e: Exp, base: nat, x: nat)
    requires WellMade(e) && Stands(prog, e, base, x) && PaidIn(prog, cost, e, base, x)
    ensures CostsEnough(cost, e, base, x)
    decreases e, 1
  {
    hide *;
    match e
    case Atom(_) => AtomCosts(prog, cost, e, base, x);
    case Group(_, _) => GroupCosts(prog, cost, e, base, x);
    case Cat(_, _) => CatCosts(prog, cost, e, base, x);
    case Alt(_, _) => AltCosts(prog, cost, e, base, x);
    case Postfix(op, _) => if op == QUEST { QuestCosts(prog, cost, e, base, x); } else { LoopCosts(prog, cost, e, base, x); }
  }

  lemma AtomCosts(prog: seq<Inst>, cost: seq<nat>, e: Exp, base: nat, x: nat)
    requires e.Atom? && WellMade(e) && Stands(prog, e, base, x) && PaidIn(prog, cost, e, base, x)
    ensures CostsEnough(cost, e, base, x)
  {
    assert prog[base] == Linked(e.inst, x) && Paid(prog, cost, base);
    SumOne(cost, base, 0);
  }

  lemma {:induction false} GroupCosts(prog: seq<Inst>, cost: seq<nat>, e: Exp, base: nat, x: nat)
    requires e.Group? && WellMade(e) && Stands(prog, e, base, x) && PaidIn(prog, cost, e, base, x)
    ensures CostsEnough(cost, e, base, x)
    decreases e, 0
  {
    hide Stands, Sum, Paid, PaidIn;
    GroupParts(prog, cost, e, base, x);
    var n := base + Size(e.sub);
    SumOne(cost, base, Size(e.sub));
    CodeCosts(prog, cost, e.sub, base, n);
    FirstCostMono(e.sub, cost[x], cost[n]);
    RoomMono(e.sub, cost[x], cost[n]);
  }

  lemma GroupParts(prog: seq<Inst>, cost: seq<nat>, e: Exp, base: nat, x: nat)
    requires e.Group? && WellMade(e) && Stands(prog, e, base, x) && PaidIn(prog, cost, e, base, x)
    ensures var n := base + Size(e.sub);
      && n + 1 < |cost| && x < |cost| && base <= First(e.sub, base) < n
      && Stands(prog, e.sub, base, n) && PaidIn(prog, cost, e.sub, base, n)
      && cost[n] >= cost[x] && cost[n+1] >= cost[First(e.sub, base)]
  {
    hide Stands, First;
    Parts(prog, e, base, x);
    InRange(e.sub, base);
    var n := base + Size(e.sub);
    assert Paid(prog, cost, n) && Paid(prog, cost, n + 1);
  }

  lemma {:induction false} CatCosts(prog: seq<Inst>, cost: seq<nat>, e: Exp, base: nat, x: nat)
    requires e.Cat? && WellMade(e) && Stands(prog, e, base, x) && PaidIn(prog, cost, e, base, x)
    ensures CostsEnough(cost, e, base, x)
    decreases e, 0
  {
    hide Stands, Sum, Paid;
    Parts(prog, e, base, x);
    var n := base + Size(e.left);
    InRange(e.right, n);
    var f := First(e.right, n);
    CodeCosts(prog, cost, e.right, n, x);
    CodeCosts(prog, cost, e.left, base, f);
    SumJoin(cost, base, Size(e.left), Size(e.right));
    FirstCostMono(e.left, FirstCost(e.right, cost[x]), cost[f]);
    RoomMono(e.left, FirstCost(e.right, cost[x]), cost[f]);
  }

  lemma {:induction false} AltCosts(prog: seq<Inst>, cost: seq<nat>, e: Exp, base: nat, x: nat)
    requires e.Alt? && WellMade(e) && Stands(prog, e, base, x) && PaidIn(prog, cost, e, base, x)
    ensures CostsEnough(cost, e, base, x)
    decreases e, 0
  {
    hide Stands, Sum, Paid, PaidIn, First, FirstCost, RoomOf;
    var m := base + Size(e.left);
    var n := m + Size(e.right);
    AltParts(prog, cost, e, base, x);
    AltDefs(e, base, cost[x]);
    SumOne(cost, base, Size(e.left) + Size(e.right));
    SumJoin(cost, base, Size(e.left), Size(e.right));
    CodeCosts(prog, cost, e.left, base, n);
    CodeCosts(prog, cost, e.right, m, n);
    FirstCostMono(e.left, cost[x], cost[n]);
    FirstCostMono(e.right, cost[x], cost[n]);
    RoomMono(e.left, cost[x], cost[n]);
    RoomMono(e.right, cost[x], cost[n]);
  }

  lemma AltDefs(e: Exp, base: nat, a: nat)
    requires e.Alt?
    ensures First(e, base) == base + Size(e.left) + Size(e.right) + 1
    ensures FirstCost(e, a) == 1 + FirstCost(e.left, a) + FirstCost(e.right, a)
    ensures RoomOf(e, a) == RoomOf(e.left, a) + RoomOf(e.right, a) + (1 + a) + (1 + FirstCost(e, a))
  {
  }

  lemma AltParts(prog: seq<Inst>, cost: seq<nat>, e: Exp, base: nat, x: nat)
    requires e.Alt? && WellMade(e) && Stands(prog, e, base, x) && PaidIn(prog, cost, e, base, x)
    ensures var m := base + Size(e.left); var n := m + Size(e.right);
      && n + 1 < |cost| && x < |cost| && base <= First(e.left, base) < n && base <= First(e.right, m) < n
      && Stands(prog, e.left, base, n) && PaidIn(prog, cost, e.left, base, n)
      && Stands(prog, e.right, m, n) && PaidIn(prog, cost, e.right, m, n)
      && cost[n] >= cost[x] && cost[n+1] >= 1 + cost[First(e.left, base)] + cost[First(e.right, m)]
  {
    hide Stands, First;
    Parts(prog, e, base, x);
    InRange(e.left, base);
    InRange(e.right, base + Size(e.left));
    var n := base + Size(e.left) + Size(e.right);
    assert Paid(prog, cost, n) && Paid(prog, cost, n + 1);
  }

  lemma {:induction false} QuestCosts(prog: seq<Inst>, cost: seq<nat>, e: Exp, base: nat, x: nat)
    requires e.Postfix? && e.op == QUEST && WellMade(e) && Stands(prog, e, base, x) && PaidIn(prog, cost, e, base, x)
    ensures CostsEnough(cost, e, base, x)
    decreases e, 0
  {
    hide Stands, Sum, Paid, PaidIn;
    QuestParts(prog, cost, e, base, x);
    var n := base + Size(e.sub);
    SumOne(cost, base, Size(e.sub));
    CodeCosts(prog, cost, e.sub, base, n + 1);
    FirstCostMono(e.sub, cost[x], cost[n+1]);
    RoomMono(e.sub, cost[x], cost[n+1]);
  }

  lemma QuestParts(prog: seq<Inst>, cost: seq<nat>, e: Exp, base: nat, x: nat)
    requires e.Postfix? && e.op == QUEST && WellMade(e) && Stands(prog, e, base, x) && PaidIn(prog, cost, e, base, x)
    ensures var n := base + Size(e.sub);
      && n + 1 < |cost| && x < |cost| && base <= First(e.sub, base) < n
      && Stands(prog, e.sub, base, n + 1) && PaidIn(prog, cost, e.sub, base, n + 1)
      && cost[n] >= 1 + cost[First(e.sub, base)] + cost[n+1] && cost[n+1] >= cost[x]
  {
    hide Stands, First, Layout;
    QuestStands(prog, e, base, x);
    InRange(e.sub, base);
    var n := base + Size(e.sub);
    assert Paid(prog, cost, n) && Paid(prog, cost, n + 1);
  }

  lemma {:induction false} LoopCosts(prog: seq<Inst>, cost: seq<nat>, e: Exp, base: nat, x: nat)
    requires e.Postfix? && e.op != QUEST && WellMade(e) && Stands(prog, e, base, x) && PaidIn(prog, cost, e, base, x)
    ensures CostsEnough(cost, e, base, x)
    decreases e, 0
  {
    hide Stands, Sum, Paid, PaidIn;
    LoopParts(prog, cost, e, base, x);
    var n := base + Size(e.sub);
    SumOne(cost, base, Size(e.sub));
    CodeCosts(prog, cost, e.sub, base, n);
    FirstCostMono(e.sub, 0, cost[n]);
    if MayBeEmpty(e.sub) { FirstCostPasses(e.sub, cost[n]); }
    FirstCostMono(e.sub, LoopCost(e.sub, cost[x]), cost[n]);
    RoomMono(e.sub, LoopCost(e.sub, cost[x]), cost[n]);
  }

  lemma LoopParts(prog: seq<Inst>, cost: seq<nat>, e: Exp, base: nat, x: nat)
    requires e.Postfix? && e.op != QUEST && WellMade(e) && Stands(prog, e, base, x) && PaidIn(prog, cost, e, base, x)
    ensures var n := base + Size(e.sub);
      && n < |cost| && x < |cost| && base <= First(e.sub, base) < n
      && Stands(prog, e.sub, base, n) && PaidIn(prog, cost, e.sub, base, n)
      && cost[n] >= 1 + cost[First(e.sub, base)] + cost[x]
  {
    hide Stands, First, Layout;
    LoopStands(prog, e, base, x);
    InRange(e.sub, base);
    assert Paid(prog, cost, base + Size(e.sub));
  }

  // The sum of the costs given above.

  lemma {:induction false} SumIsRoom(cost: seq<nat>, e: Exp, base: nat, x: nat)
    requires CostsStand(cost, e, base, x)
    ensures Sum(cost, base, Size(e)) == RoomOf(e, cost[x])
  {
    hide Sum, CostAt, RoomOf;
    assert CostsAre(cost, e, base, cost[x]);
    SumAgain(cost, e, base, cost[x]);
  }

  ghost predicate CostsAre(cost: seq<nat>, e: Exp, base: nat, a: nat)
  {
    base + Size(e) <= |cost| && forall k :: base <= k < base + Size(e) ==> cost[k] == CostAt(e, base, a, k)
  }

  lemma {:induction false} SumAgain(cost: seq<nat>, e: Exp, base: nat, a: nat)
    requires CostsAre(cost, e, base, a)
    ensures Sum(cost, base, Size(e)) == RoomOf(e, a)
    decreases e, 1
  {
    hide Sum, FirstCost, CostsAre, CostAt;
    SumParts(cost, e, base, a);
    match e
    case Atom(_) => SumNone(cost, base); SumOne(cost, base, 0);
    case Group(sub, _) => SumAgain(cost, sub, base, a); SumOne(cost, base, Size(sub));
    case Cat(x, y) =>
      SumAgain(cost, x, base, FirstCost(y, a));
      SumAgain(cost, y, base + Size(x), a);
      SumJoin(cost, base, Size(x), Size(y));
    case Alt(_, _) => SumAlt(cost, e, base, a);
    case Postfix(op, sub) =>
      SumAgain(cost, sub, base, if op == QUEST then a else LoopCost(sub, a));
      SumOne(cost, base, Size(sub));
  }

  lemma {:induction false} SumAlt(cost: seq<nat>, e: Exp, base: nat, a: nat)
    requires e.Alt? && CostsAre(cost, e, base, a)
    ensures Sum(cost, base, Size(e)) == RoomOf(e, a)
    decreases e, 0
  {
    hide Sum, FirstCost, CostsAre, CostAt;
    var m, n := Size(e.left), Size(e.right);
    SumParts(cost, e, base, a);
    SumAgain(cost, e.left, base, a);
    SumAgain(cost, e.right, base + m, a);
    SumJoin(cost, base, m, n);
    SumOne(cost, base, m + n);
  }

  lemma SumNone(cost: seq<nat>, base: nat)
    requires base <= |cost|
    ensures Sum(cost, base, 0) == 0
  {
  }

  /** The costs of the parts of e and of the instructions that join them. */
  lemma SumParts(cost: seq<nat>, e: Exp, base: nat, a: nat)
    requires CostsAre(cost, e, base, a)
    ensures base + Size(e) <= |cost|
    ensures e.Atom? ==> cost[base] == FirstCost(e, a)
    ensures e.Group? ==> CostsAre(cost, e.sub, base, a) && cost[base+Size(e.sub)] == a && cost[base+Size(e.sub)+1] == FirstCost(e.sub, a)
    ensures e.Cat? ==> CostsAre(cost, e.left, base, FirstCost(e.right, a)) && CostsAre(cost, e.right, base + Size(e.left), a)
    ensures e.Alt? ==> CostsAre(cost, e.left, base, a) && CostsAre(cost, e.right, base + Size(e.left), a)
    ensures e.Alt? ==> var n := base + Size(e.left) + Size(e.right); cost[n] == a && cost[n+1] == FirstCost(e, a)
    ensures e.Postfix? && e.op == QUEST ==>
      var n := base + Size(e.sub); CostsAre(cost, e.sub, base, a) && cost[n] == FirstCost(e, a) && cost[n+1] == a
    ensures e.Postfix? && e.op != QUEST ==>
      CostsAre(cost, e.sub, base, LoopCost(e.sub, a)) && cost[base+Size(e.sub)] == LoopCost(e.sub, a)
  {
    hide FirstCost, LoopCost;
  }

  // The whole program.

  /** The code of e from the first place on, and END. */
  ghost predicate IsProgram(prog: seq<Inst>, e: Exp)
  {
    WellMade(e) && Stands(prog, e, 0, Size(e)) && |prog| == Size(e) + 1 && prog[Size(e)].End?
  }

  ghost predicate AllPaid(prog: seq<Inst>, cost: seq<nat>)
  {
    |cost| == |prog| && forall k :: 0 <= k < |prog| ==> Paid(prog, cost, k)
  }

  lemma {:induction false} SumIsAdds(cost: seq<nat>, n: nat)
    requires n <= |cost|
    ensures Sum(cost, 0, n) == AddsUpTo(cost, AllOf(|cost|), n)
  {
    if n > 0 { SumIsAdds(cost, n - 1); }
  }

  /** The costs of a program in which every loop takes a character. */
  lemma ProgramCosts(prog: seq<Inst>, e: Exp) returns (cost: seq<nat>)
    requires IsProgram(prog, e) && LoopsTake(e)
    ensures AllPaid(prog, cost) && Sum(cost, 0, |cost|) == Room(e)
  {
    hide Stands, CostAt, RoomOf, Paid;
    var n := Size(e);
    cost := seq(n + 1, k requires 0 <= k <= n => if k < n then CostAt(e, 0, 0, k) else 0);
    forall k | 0 <= k < |prog| ensures Paid(prog, cost, k) {
      if k < n { CodeIsPaid(prog, cost, e, 0, n, k); } else { EndPaid(prog, cost, k); }
    }
    SumIsRoom(cost, e, 0, n);
    SumOne(cost, 0, n);
  }

  lemma EndPaid(prog: seq<Inst>, cost: seq<nat>, k: nat)
    requires |cost| == |prog| && k < |prog| && prog[k].End?
    ensures Paid(prog, cost, k)
  {
  }

  /** No costs of a program come to less, and there are none if some loop takes nothing. */
  lemma ProgramCostsLeast(prog: seq<Inst>, e: Exp, cost: seq<nat>)
    requires IsProgram(prog, e) && AllPaid(prog, cost)
    ensures LoopsTake(e) && Sum(cost, 0, |cost|) >= Room(e)
  {
    hide Stands, RoomOf, Paid, First;
    CodeCosts(prog, cost, e, 0, Size(e));
    RoomMono(e, 0, cost[Size(e)]);
    SumOne(cost, 0, Size(e));
  }

  /** The optimized program has the same costs. */
  lemma OptimizedCosts(prog: seq<Inst>, rank: seq<nat>, opt: seq<Inst>, cost: seq<nat>)
    requires Compiled(prog, rank) && AllChased(prog, rank, opt) && AllPaid(prog, cost) && WellFormed(opt)
    ensures Costs(opt, cost)
  {
    hide Linked, Target, Compiled, WellFormed, Paid, CostsAt, Chased;
    forall k | 0 <= k < |opt| ensures CostsAt(opt, cost, k) {
      assert Chased(prog, rank, k, opt[k]) && Paid(prog, cost, k);
      CostChased(prog, rank, opt, cost, k);
    }
  }

  lemma CostChased(prog: seq<Inst>, rank: seq<nat>, opt: seq<Inst>, cost: seq<nat>, k: nat)
    requires Compiled(prog, rank) && |opt| == |prog| && AllPaid(prog, cost) && WellFormed(opt) && k < |prog| && Chased(prog, rank, k, opt[k])
    ensures CostsAt(opt, cost, k)
  {
    hide Linked, Target;
    assert Paid(prog, cost, k);
    if k < |prog| - 1 {
      assert GoodLinks(prog, rank, k);
      var t := Target(prog, rank, prog[k].next);
      LinkedMayPass(prog[k], t);
      TargetCost(prog, rank, cost, prog[k].next);
    }
  }

  lemma LinkedMayPass(inst: Inst, x: nat)
    ensures MayPass(Linked(inst, x)) == MayPass(inst) && Linked(inst, x).Or? == inst.Or?
    ensures !inst.End? ==> Linked(inst, x).next == x
    ensures inst.Or? ==> Linked(inst, x).right == inst.right
  {
  }

  /** A NOP costs at least what it leads to. */
  lemma {:induction false} TargetCost(prog: seq<Inst>, rank: seq<nat>, cost: seq<nat>, t: nat)
    requires Compiled(prog, rank) && AllPaid(prog, cost) && t < |prog|
    ensures cost[Target(prog, rank, t)] <= cost[t]
    decreases rank[t]
  {
    if prog[t].Nop? {
      assert GoodLinks(prog, rank, t) && Paid(prog, cost, t);
      TargetCost(prog, rank, cost, prog[t].next);
    }
  }

  /** The costs of the optimized program serve for the original, a NOP costing what it leads to. */
  lemma OriginalCosts(prog: seq<Inst>, rank: seq<nat>, opt: seq<Inst>, cost: seq<nat>) returns (cost': seq<nat>)
    requires Compiled(prog, rank) && AllChased(prog, rank, opt) && Costs(opt, cost)
    ensures AllPaid(prog, cost') && Sum(cost', 0, |cost'|) <= Sum(cost, 0, |cost|)
  {
    hide Linked, Target, Compiled, WellFormed, Paid, CostsAt, Chased;
    cost' := seq(|prog|, k requires 0 <= k < |prog| => cost[Target(prog, rank, k)]);
    forall k | 0 <= k < |prog| ensures Paid(prog, cost', k) && cost'[k] <= cost[k] {
      assert Chased(prog, rank, k, opt[k]) && CostsAt(opt, cost, k);
      PaidBack(prog, rank, opt, cost, cost', k);
    }
    SumLess(cost', cost, |cost|);
  }

  lemma {:induction false} SumLess(a: seq<nat>, b: seq<nat>, n: nat)
    requires |a| == |b| && n <= |a| && forall k :: 0 <= k < n ==> a[k] <= b[k]
    ensures Sum(a, 0, n) <= Sum(b, 0, n)
  {
    if n > 0 { SumLess(a, b, n - 1); }
  }

  lemma PaidBack(prog: seq<Inst>, rank: seq<nat>, opt: seq<Inst>, cost: seq<nat>, cost': seq<nat>, k: nat)
    requires Compiled(prog, rank) && |opt| == |prog| == |cost| == |cost'| && k < |prog| && Chased(prog, rank, k, opt[k])
    requires WellFormed(opt) && CostsAt(opt, cost, k)
    requires forall j :: 0 <= j < |prog| ==> cost'[j] == cost[Target(prog, rank, j)]
    ensures Paid(prog, cost', k) && cost'[k] <= cost[k]
  {
    hide Linked, WellFormed;
    if k < |prog| - 1 {
      assert GoodLinks(prog, rank, k);
      var t := Target(prog, rank, prog[k].next);
      LinkedMayPass(prog[k], t);
      LinkedKind(prog[k], t, [], 0);
    }
  }

  /**
   * The lists have room for the optimized program of an expression just when every loop takes a character and the
   * room the expression needs is below the lists' size.
   */
  lemma RoomyExactly(prog: seq<Inst>, rank: seq<nat>, opt: seq<Inst>, e: Exp, cap: nat)
    requires IsProgram(prog, e) && Compiled(prog, rank) && AllChased(prog, rank, opt) && WellFormed(opt)
    ensures AlwaysRoomy(opt, cap) <==> LoopsTake(e) && Room(e) < cap
  {
    hide IsProgram, Compiled, AllChased, WellFormed, Costs, Sum, AddsUpTo, AllPaid, Room;
    if LoopsTake(e) && Room(e) < cap {
      var cost := ProgramCosts(prog, e);
      OptimizedCosts(prog, rank, opt, cost);
      SumIsAdds(cost, |cost|);
    }
    if cost :| Costs(opt, cost) && Need(cost, AllOf(|cost|)) < cap {
      var cost' := OriginalCosts(prog, rank, opt, cost);
      ProgramCostsLeast(prog, e, cost');
      SumIsAdds(cost, |cost|);
    }
  }

  /** There are costs for the optimized program at all just when every loop takes a character. */
  lemma CostsExactly(prog: seq<Inst>, rank: seq<nat>, opt: seq<Inst>, e: Exp)
    requires IsProgram(prog, e) && Compiled(prog, rank) && AllChased(prog, rank, opt) && WellFormed(opt)
    ensures (exists cost :: Costs(opt, cost)) <==> LoopsTake(e)
  {
    hide IsProgram, Compiled, AllChased, WellFormed, Costs, Sum, AllPaid, Room;
    if LoopsTake(e) {
      var cost := ProgramCosts(prog, e);
      OptimizedCosts(prog, rank, opt, cost);
    }
    if cost :| Costs(opt, cost) {
      var cost' := OriginalCosts(prog, rank, opt, cost);
      ProgramCostsLeast(prog, e, cost');
    }
  }

  /** The lists have room for prog just when they have for e. */
  ghost predicate RoomAs(prog: seq<Inst>, e: Exp)
  {
    forall cap: nat :: AlwaysRoomy(prog, cap) <==> LoopsTake(e) && Room(e) < cap
  }

  lemma OptimizedRoom(prog: seq<Inst>, rank: seq<nat>, opt: seq<Inst>, e: Exp)
    requires IsProgram(prog, e) && Compiled(prog, rank) && AllChased(prog, rank, opt) && WellFormed(opt)
    ensures RoomAs(opt, e)
  {
    hide IsProgram, Compiled, AllChased, WellFormed, AlwaysRoomy, Room;
    forall cap: nat ensures AlwaysRoomy(opt, cap) <==> LoopsTake(e) && Room(e) < cap { RoomyExactly(prog, rank, opt, e, cap); }
  }

  lemma EndRoom(prog: seq<Inst>)
    requires prog == [End]
    ensures AlwaysRoomy(prog, 2)
  {
    assert Costs(prog, [0]) && Need([0], AllOf(1)) == 1;
  }

  /** The numbers of the groups cost nothing. */
  lemma {:induction false} BareCosts(e: Exp, a: nat)
    ensures MayBeEmpty(Bare(e)) == MayBeEmpty(e) && LoopsTake(Bare(e)) == LoopsTake(e)
    ensures FirstCost(Bare(e), a) == FirstCost(e, a) && RoomOf(Bare(e), a) == RoomOf(e, a)
  {
    match e
    case Atom(_) =>
    case Group(sub, _) => BareCosts(sub, a);
    case Cat(x, y) => BareCosts(y, a); BareCosts(x, FirstCost(y, a));
    case Alt(x, y) => BareCosts(x, a); BareCosts(y, a);
    case Postfix(op, sub) => BareCosts(sub, a); BareCosts(sub, 0); BareCosts(sub, LoopCost(sub, a));
  }

  /** An expression without stacked postfix operators needs the room its parse does. */
  lemma ParsedRoom(y: Exp, e: Exp)
    requires ParsedAs(y, e) && Once(e)
    ensures LoopsTake(y) == LoopsTake(e) && Room(y) == Room(e)
  {
    BareCosts(y, 0);
    BareCosts(e, 0);
  }
}
