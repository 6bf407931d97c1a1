/** The compiler (regcomp.c): stacks of code fragments, patched links and a growing program. */
module RegComp {
  import opened RegProg
  import opened RegLang
  import opened RegCode
  import opened RegParse
  import opened RegAccept
  import opened RegExec
  import opened RegOptimize
  import opened RegRoom

  /** A fragment on the operand stack: where it begins and whose link leads out of it. */
  datatype Node = Node(first: nat, last: nat)

  /** How a compilation step ended: with longjmp to regkaboom, or not. */
  datatype Status = Fine | Failed(why: Reason)

  /** Where the code of operand n begins. */
  function Base(exps: seq<Exp>, n: nat): nat
    requires n <= |exps|
  {
    if n == 0 then 0 else Base(exps, n - 1) + Size(exps[n-1])
  }

  /** An operand's code stands in the program, open at its end. */
  ghost predicate Tile(code: seq<Inst>, e: Exp, base: nat, node: Node)
  {
    Stands(code, e, base, 0) && node == Node(First(e, base), Last(e, base))
  }

  /** The program is the code of the operands one after another. */
  ghost predicate Tiles(code: seq<Inst>, exps: seq<Exp>, ands: seq<Node>)
  {
    && |ands| == |exps| && |code| == Base(exps, |exps|)
    && forall k {:trigger ands[k]} :: 0 <= k < |exps| ==> Tile(code, exps[k], Base(exps, k), ands[k])
  }

  lemma {:induction false} BasePrefix(exps: seq<Exp>, exps': seq<Exp>, n: nat)
    requires n <= |exps| && n <= |exps'| && exps[..n] == exps'[..n]
    ensures Base(exps, n) == Base(exps', n)
  {
    if n > 0 {
      assert exps[n-1] == exps[..n][n-1] == exps'[n-1];
      assert exps[..n-1] == exps[..n][..n-1] == exps'[..n-1];
      BasePrefix(exps, exps', n - 1);
    }
  }

  lemma {:induction false} BaseGrows(exps: seq<Exp>, k: nat, n: nat)
    requires k <= n <= |exps|
    ensures Base(exps, k) <= Base(exps, n)
  {
    if k < n {
      BaseGrows(exps, k, n - 1);
    }
  }

  lemma {:induction false} KeepTile(code: seq<Inst>, code': seq<Inst>, e: Exp, base: nat, node: Node, n: nat)
    requires Tile(code, e, base, node) && base + Size(e) <= n <= |code| && n <= |code'|
    requires forall k :: 0 <= k < n ==> code'[k] == code[k]
    ensures Tile(code', e, base, node)
  {
    hide Stands;
    StandsFrame(code, code', e, base, 0);
  }

  /** The operands from n on are replaced by one. */
  lemma {:induction false} Retile(code: seq<Inst>, exps: seq<Exp>, ands: seq<Node>, n: nat, code': seq<Inst>, e: Exp, node: Node)
    requires Tiles(code, exps, ands) && n <= |exps|
    requires Base(exps, n) <= |code| && |code'| == Base(exps, n) + Size(e)
    requires forall k :: 0 <= k < Base(exps, n) ==> code'[k] == code[k]
    requires Tile(code', e, Base(exps, n), node)
    ensures Tiles(code', exps[..n] + [e], ands[..n] + [node])
  {
    hide Tile, Size;
    var exps', ands' := exps[..n] + [e], ands[..n] + [node];
    assert exps'[..n] == exps[..n];
    BasePrefix(exps, exps', n);
    assert |code'| == Base(exps', |exps'|);
    forall k {:trigger ands'[k]} | 0 <= k < |exps'| ensures Tile(code', exps'[k], Base(exps', k), ands'[k]) {
      if k < n {
        KeepsTile(code, exps, ands, n, code', exps', k);
      }
    }
  }

  lemma {:induction false} KeepsTile(code: seq<Inst>, exps: seq<Exp>, ands: seq<Node>, n: nat, code': seq<Inst>, exps': seq<Exp>, k: nat)
    requires Tiles(code, exps, ands) && k < n <= |exps| && n <= |exps'| && exps'[..n] == exps[..n]
    requires Base(exps, n) <= |code| && Base(exps, n) <= |code'|
    requires forall i :: 0 <= i < Base(exps, n) ==> code'[i] == code[i]
    ensures Tile(code', exps'[k], Base(exps', k), ands[k])
  {
    hide Tile, Size;
    assert exps'[k] == exps'[..n][k] == exps[..n][k] == exps[k];
    assert exps[..k] == exps[..n][..k] == exps'[..n][..k] == exps'[..k];
    BasePrefix(exps, exps', k);
    BaseGrows(exps, k + 1, n);
    assert Tile(code, exps[k], Base(exps, k), ands[k]);
    KeepTile(code, code', exps[k], Base(exps, k), ands[k], Base(exps, n));
  }

  // What the patches of evaluntil make of one or two fragments at the end of the program.

  /** The program with the next link at l set, and some instructions added. */
  function Patched(code: seq<Inst>, l: nat, x: nat, more: seq<Inst>): seq<Inst>
  {
    (if l < |code| then code[l := Linked(code[l], x)] else code) + more
  }

  lemma PatchedStands(code: seq<Inst>, e: Exp, base: nat, x: nat, more: seq<Inst>)
    requires Stands(code, e, base, 0) && |code| == base + Size(e)
    ensures base <= Last(e, base) < |code|
    ensures Stands(Patched(code, Last(e, base), x, more), e, base, x)
  {
    hide Stands, Linked, First, Last, Size;
    Relink(code, e, base, 0, x);
    var l := Last(e, base);
    StandsFrame(code[l := Linked(code[l], x)], Patched(code, l, x, more), e, base, x);
  }

  lemma MakeGroup(code: seq<Inst>, e: Exp, base: nat, id: nat)
    requires Stands(code, e, base, 0) && |code| == base + Size(e)
    ensures base <= Last(e, base) < |code|
    ensures Stands(Patched(code, Last(e, base), |code|, [Rbra(id, 0), Lbra(id, First(e, base))]), Group(e, id), base, 0)
  {
    hide Stands, Linked, First, Last;
    var more := [Rbra(id, 0), Lbra(id, First(e, base))];
    PatchedStands(code, e, base, |code|, more);
    Parts(Patched(code, Last(e, base), |code|, more), Group(e, id), base, 0);
  }

  lemma MakeLoop(code: seq<Inst>, e: Exp, base: nat, op: Op)
    requires Stands(code, e, base, 0) && |code| == base + Size(e) && op != QUEST
    ensures base <= Last(e, base) < |code|
    ensures Stands(Patched(code, Last(e, base), |code|, [Or(First(e, base), 0)]), Postfix(op, e), base, 0)
  {
    hide Stands, Linked, First, Last;
    var more := [Or(First(e, base), 0)];
    PatchedStands(code, e, base, |code|, more);
    Parts(Patched(code, Last(e, base), |code|, more), Postfix(op, e), base, 0);
  }

  lemma MakeQuest(code: seq<Inst>, e: Exp, base: nat)
    requires Stands(code, e, base, 0) && |code| == base + Size(e)
    ensures base <= Last(e, base) < |code|
    ensures Stands(Patched(code, Last(e, base), |code| + 1, [Or(First(e, base), |code| + 1), Nop(0)]), Postfix(QUEST, e), base, 0)
  {
    hide Stands, Linked, First, Last;
    var more := [Or(First(e, base), |code| + 1), Nop(0)];
    PatchedStands(code, e, base, |code| + 1, more);
    Parts(Patched(code, Last(e, base), |code| + 1, more), Postfix(QUEST, e), base, 0);
  }

  lemma MakeCat(code: seq<Inst>, a: Exp, b: Exp, base: nat)
    requires Stands(code, a, base, 0) && Stands(code, b, base + Size(a), 0) && |code| == base + Size(a) + Size(b)
    ensures base <= Last(a, base) < base + Size(a)
    ensures Stands(Patched(code, Last(a, base), First(b, base + Size(a)), []), Cat(a, b), base, 0)
  {
    hide Stands, Linked, First, Last;
    var l, x := Last(a, base), First(b, base + Size(a));
    Relink(code, a, base, 0, x);
    var code' := Patched(code, l, x, []);
    assert code' == code[l := Linked(code[l], x)];
    StandsFrame(code, code', b, base + Size(a), 0);
    Parts(code', Cat(a, b), base, 0);
  }

  lemma LinkBoth(code: seq<Inst>, a: Exp, b: Exp, base: nat)
    requires Stands(code, a, base, 0) && Stands(code, b, base + Size(a), 0) && |code| == base + Size(a) + Size(b)
    ensures var mid := base + Size(a); base <= Last(a, base) < mid <= Last(b, mid) < |code|
    ensures var mid, n := base + Size(a), |code|;
      var c1 := code[Last(b, mid) := Linked(code[Last(b, mid)], n)];
      var c2 := c1[Last(a, base) := Linked(c1[Last(a, base)], n)];
      Stands(c2, a, base, n) && Stands(c2, b, mid, n)
  {
    hide Stands, Linked, First, Last;
    var mid, n := base + Size(a), |code|;
    Relink(code, b, mid, 0, n);
    var c1 := code[Last(b, mid) := Linked(code[Last(b, mid)], n)];
    InRange(a, base);
    StandsFrame(code, c1, a, base, 0);
    Relink(c1, a, base, 0, n);
    StandsFrame(c1, c1[Last(a, base) := Linked(c1[Last(a, base)], n)], b, mid, n);
  }

  lemma MakeAlt(code: seq<Inst>, a: Exp, b: Exp, base: nat)
    requires Stands(code, a, base, 0) && Stands(code, b, base + Size(a), 0) && |code| == base + Size(a) + Size(b)
    ensures var mid := base + Size(a);
      && base <= Last(a, base) < mid <= Last(b, mid) < |code|
      && Stands(Patched(Patched(code, Last(b, mid), |code|, []), Last(a, base), |code|, [Nop(0), Or(First(a, base), First(b, mid))]),
                Alt(a, b), base, 0)
  {
    hide Stands, Linked, First, Last;
    var mid, n := base + Size(a), |code|;
    LinkBoth(code, a, b, base);
    var c1 := Patched(code, Last(b, mid), n, []);
    assert c1 == code[Last(b, mid) := Linked(code[Last(b, mid)], n)];
    var c2 := c1[Last(a, base) := Linked(c1[Last(a, base)], n)];
    var c3 := c2 + [Nop(0), Or(First(a, base), First(b, mid))];
    StandsFrame(c2, c3, a, base, n);
    StandsFrame(c2, c3, b, mid, n);
    Parts(c3, Alt(a, b), base, 0);
  }

  /** The top operand ends the program. */
  lemma {:induction false} Top(code: seq<Inst>, exps: seq<Exp>, ands: seq<Node>)
    requires Tiles(code, exps, ands) && |exps| > 0
    ensures var n := |exps| - 1; var base := Base(exps, n);
      && |ands| == n + 1 && Stands(code, exps[n], base, 0) && |code| == base + Size(exps[n])
      && ands[n] == Node(First(exps[n], base), Last(exps[n], base)) && ands[n].last < |code|
  {
    var n := |exps| - 1;
    assert Tile(code, exps[n], Base(exps, n), ands[n]);
    InRange(exps[n], Base(exps, n));
  }

  lemma {:induction false} TopTwo(code: seq<Inst>, exps: seq<Exp>, ands: seq<Node>)
    requires Tiles(code, exps, ands) && |exps| > 1
    ensures var n := |exps| - 2; var base := Base(exps, n); var mid := base + Size(exps[n]);
      && |ands| == n + 2 && Stands(code, exps[n], base, 0) && Stands(code, exps[n+1], mid, 0)
      && |code| == mid + Size(exps[n+1])
      && ands[n] == Node(First(exps[n], base), Last(exps[n], base)) && ands[n].last < |code|
      && ands[n+1] == Node(First(exps[n+1], mid), Last(exps[n+1], mid)) && ands[n+1].last < |code|
  {
    hide Stands, First, Last, Size;
    var n := |exps| - 2;
    assert Tile(code, exps[n], Base(exps, n), ands[n]);
    assert Tile(code, exps[n+1], Base(exps, n+1), ands[n+1]);
    assert Base(exps, n+2) == Base(exps, n+1) + Size(exps[n+1]);
    InRange(exps[n], Base(exps, n));
    InRange(exps[n+1], Base(exps, n+1));
  }

  lemma GroupTiles(code: seq<Inst>, exps: seq<Exp>, ands: seq<Node>, id: nat)
    requires |ands| == |exps| > 0 && Tiles(code, exps, ands)
    ensures var n := |exps| - 1;
      && ands[n].last < |code|
      && Tiles(Patched(code, ands[n].last, |code|, [Rbra(id, 0), Lbra(id, ands[n].first)]),
               exps[..n] + [Group(exps[n], id)], ands[..n] + [Node(|code| + 1, |code|)])
  {
    hide Stands, Linked, Tiles, Base;
    Top(code, exps, ands);
    var n := |exps| - 1;
    var e, base := exps[n], Base(exps, n);
    MakeGroup(code, e, base, id);
    InRange(e, base);
    Retile(code, exps, ands, n, Patched(code, ands[n].last, |code|, [Rbra(id, 0), Lbra(id, ands[n].first)]),
           Group(e, id), Node(|code| + 1, |code|));
  }

  lemma LoopTiles(code: seq<Inst>, exps: seq<Exp>, ands: seq<Node>, op: Op)
    requires |ands| == |exps| > 0 && Tiles(code, exps, ands) && (op == STAR || op == PLUS)
    ensures var n := |exps| - 1;
      && ands[n].last < |code|
      && Tiles(Patched(code, ands[n].last, |code|, [Or(ands[n].first, 0)]),
               exps[..n] + [Postfix(op, exps[n])], ands[..n] + [Node(if op == PLUS then ands[n].first else |code|, |code|)])
  {
    hide Stands, Linked, Tiles, Base;
    Top(code, exps, ands);
    var n := |exps| - 1;
    var e, base := exps[n], Base(exps, n);
    MakeLoop(code, e, base, op);
    InRange(e, base);
    Retile(code, exps, ands, n, Patched(code, ands[n].last, |code|, [Or(ands[n].first, 0)]),
           Postfix(op, e), Node(if op == PLUS then ands[n].first else |code|, |code|));
  }

  lemma QuestTiles(code: seq<Inst>, exps: seq<Exp>, ands: seq<Node>)
    requires |ands| == |exps| > 0 && Tiles(code, exps, ands)
    ensures var n := |exps| - 1;
      && ands[n].last < |code|
      && Tiles(Patched(code, ands[n].last, |code| + 1, [Or(ands[n].first, |code| + 1), Nop(0)]),
               exps[..n] + [Postfix(QUEST, exps[n])], ands[..n] + [Node(|code|, |code| + 1)])
  {
    hide Stands, Linked, Tiles, Base;
    Top(code, exps, ands);
    var n := |exps| - 1;
    var e, base := exps[n], Base(exps, n);
    MakeQuest(code, e, base);
    InRange(e, base);
    Retile(code, exps, ands, n, Patched(code, ands[n].last, |code| + 1, [Or(ands[n].first, |code| + 1), Nop(0)]),
           Postfix(QUEST, e), Node(|code|, |code| + 1));
  }

  lemma CatTiles(code: seq<Inst>, exps: seq<Exp>, ands: seq<Node>)
    requires |ands| == |exps| > 1 && Tiles(code, exps, ands)
    ensures var n := |exps| - 2;
      && ands[n].last < |code|
      && Tiles(Patched(code, ands[n].last, ands[n+1].first, []),
               exps[..n] + [Cat(exps[n], exps[n+1])], ands[..n] + [Node(ands[n].first, ands[n+1].last)])
  {
    hide Stands, Linked, Tiles, Base;
    TopTwo(code, exps, ands);
    var n := |exps| - 2;
    var base := Base(exps, n);
    MakeCat(code, exps[n], exps[n+1], base);
    Retile(code, exps, ands, n, Patched(code, ands[n].last, ands[n+1].first, []),
           Cat(exps[n], exps[n+1]), Node(ands[n].first, ands[n+1].last));
  }

  lemma AltTiles(code: seq<Inst>, exps: seq<Exp>, ands: seq<Node>)
    requires |ands| == |exps| > 1 && Tiles(code, exps, ands)
    ensures var n := |exps| - 2;
      && ands[n].last < |code| && ands[n+1].last < |code|
      && Tiles(Patched(Patched(code, ands[n+1].last, |code|, []), ands[n].last, |code|, [Nop(0), Or(ands[n].first, ands[n+1].first)]),
               exps[..n] + [Alt(exps[n], exps[n+1])], ands[..n] + [Node(|code| + 1, |code|)])
  {
    hide Stands, Linked, Tiles, Base;
    TopTwo(code, exps, ands);
    var n := |exps| - 2;
    var base := Base(exps, n);
    MakeAlt(code, exps[n], exps[n+1], base);
    InRange(exps[n], base);
    var code' := Patched(Patched(code, ands[n+1].last, |code|, []), ands[n].last, |code|, [Nop(0), Or(ands[n].first, ands[n+1].first)]);
    Retile(code, exps, ands, n, code', Alt(exps[n], exps[n+1]), Node(|code| + 1, |code|));
  }

  lemma AtomTiles(code: seq<Inst>, exps: seq<Exp>, ands: seq<Node>, inst: Inst)
    requires |ands| == |exps| && Tiles(code, exps, ands)
    ensures Tiles(code + [Linked(inst, 0)], exps + [Atom(inst)], ands + [Node(|code|, |code|)])
  {
    hide Linked, Tiles, Stands, Base;
    assert |code| == Base(exps, |exps|) by { Whole(code, exps, ands); }
    var code' := code + [Linked(inst, 0)];
    Parts(code', Atom(inst), |code|, 0);
    assert Tile(code', Atom(inst), |code|, Node(|code|, |code|));
    assert exps[..|exps|] == exps && ands[..|exps|] == ands;
    Retile(code, exps, ands, |exps|, code', Atom(inst), Node(|code|, |code|));
  }

  lemma Whole(code: seq<Inst>, exps: seq<Exp>, ands: seq<Node>)
    requires Tiles(code, exps, ands)
    ensures |code| == Base(exps, |exps|)
  {
  }

  /** An instruction the way newinst leaves it: of its kind, with its links clear. */
  function Fresh(inst: Inst): Inst
  {
    Linked(inst, 0)
  }

  /** How a step of the compiler answers to a step of the parser. */
  ghost predicate Follows(status: Status, now: Parse, r: Outcome)
  {
    match r
    case Stop(why) => status == Failed(why)
    case Go(p) => status == Fine && now == p
  }

  /** The instructions that an operator on the stack will add. */
  function Weight(op: Op): nat
  {
    match op
    case OR => 2
    case LBRA => 2
    case QUEST => 2
    case STAR => 1
    case PLUS => 1
    case _ => 0
  }

  function Weights(ators: seq<Op>): nat
  {
    if ators == [] then 0 else Weights(ators[..|ators|-1]) + Weight(ators[|ators|-1])
  }

  lemma OneWeight(ators: seq<Op>, op: Op)
    ensures Weights(ators + [op]) == Weights(ators) + Weight(op)
  {
    assert (ators + [op])[..|ators|] == ators;
  }

  class Compiler {
    /** How many instructions there is memory for. */
    const room: nat
    var code: seq<Inst>
    var andstack: seq<Node>
    var atorstack: seq<Op>
    var subidstack: seq<nat>
    var cursubid: nat
    var nbra: int
    var lastwasand: bool
    ghost var exps: seq<Exp>

    /** The parser state this compiler stands for. */
    ghost function Abs(): Parse
      reads this
    {
      Parse(exps, atorstack, subidstack, cursubid, nbra, lastwasand)
    }

    /** The instructions there are, and those to come for the operators on the stack. */
    ghost function Ahead(): (n: nat)
      reads this
      ensures n >= |code|
    {
      |code| + Weights(atorstack)
    }

    ghost predicate Valid()
      reads this
    {
      Sane(Abs()) && |andstack| == |exps| && Tiles(code, exps, andstack)
    }

    /** The state regcomp1 sets up, the marker operator pushed. */
    constructor (room: nat)
      ensures Valid() && Abs() == Begin && code == [] && Ahead() == 0 && this.room == room
    {
      this.room := room;
      code, andstack, exps := [], [], [];
      atorstack, subidstack := [START1], [0];
      cursubid, nbra, lastwasand := 0, 0, false;
    }

    /** There is no test of the room left. */
    method newinst(inst: Inst) returns (k: nat)
      requires |code| < room
      modifies `code
      ensures k == |old(code)| && code == old(code) + [Fresh(inst)]
    {
      k := |code|;
      code := code + [Fresh(inst)];
    }

    /** Sets the next link of the instruction at l. */
    method link(l: nat, x: nat)
      requires l < |code|
      modifies `code
      ensures code == old(code)[l := Linked(old(code[l]), x)]
    {
      code := code[l := Linked(code[l], x)];
    }

    method pushator(op: Op) returns (status: Status)
      requires Valid()
      modifies this
      ensures Follows(status, Abs(), PushAtor(old(Abs()), op))
      ensures status == Fine ==> Valid()
      ensures code == old(code) && Ahead() <= old(Ahead()) + Weight(op)
    {
      hide Tiles, Weights, Weight;
      OneWeight(atorstack, op);
      if |atorstack| >= NSTACK {
        return Failed(StackOverflow);
      }
      atorstack, subidstack := atorstack + [op], subidstack + [cursubid];
      return Fine;
    }

    /** The case of a right parenthesis that finds its left one. */
    method closeGroup(id: nat)
      requires Valid() && |andstack| > 0 && |code| + 2 <= room
      modifies this
      ensures |code| == |old(code)| + 2
      ensures Valid() && Abs() == old(Abs()).(ands := old(exps)[..|old(exps)|-1] + [Group(old(exps[|exps|-1]), id)])
    {
      hide Tiles, Linked;
      GroupTiles(code, exps, andstack, id);
      var n := |andstack| - 1;
      ghost var was := code;
      var op1 := andstack[n];
      var inst2 := newinst(Rbra(id, 0));
      link(op1.last, inst2);
      var inst1 := newinst(Lbra(id, 0));
      link(inst1, op1.first);
      FreshLinks(id, op1.first);
      assert code == Patched(was, op1.last, |was|, [Rbra(id, 0), Lbra(id, op1.first)]);
      andstack := andstack[..n] + [Node(inst1, inst2)];
      exps := exps[..n] + [Group(exps[n], id)];
    }

    /** The case of an alternation. */
    method alternate()
      requires Valid() && |andstack| > 1 && |code| + 2 <= room
      modifies this
      ensures |code| == |old(code)| + 2
      ensures Valid()
      ensures Abs() == old(Abs()).(ands := old(exps)[..|old(exps)|-2] + [Alt(old(exps[|exps|-2]), old(exps[|exps|-1]))])
    {
      hide Tiles, Linked;
      AltTiles(code, exps, andstack);
      var n := |andstack| - 2;
      ghost var was := code;
      var op2, op1 := andstack[n+1], andstack[n];
      var inst2 := newinst(Nop(0));
      link(op2.last, inst2);
      link(op1.last, inst2);
      var inst1 := newinst(Or(op1.first, 0));
      link(inst1, op2.first);
      OrLinks(op1.first, op2.first);
      assert code == Patched(Patched(was, op2.last, |was|, []), op1.last, |was|, [Nop(0), Or(op1.first, op2.first)]);
      andstack := andstack[..n] + [Node(inst1, inst2)];
      exps := exps[..n] + [Alt(exps[n], exps[n+1])];
    }

    /** The case of a concatenation. */
    method catenate()
      requires Valid() && |andstack| > 1
      modifies this
      ensures |code| == |old(code)|
      ensures Valid()
      ensures Abs() == old(Abs()).(ands := old(exps)[..|old(exps)|-2] + [Cat(old(exps[|exps|-2]), old(exps[|exps|-1]))])
    {
      hide Tiles, Linked;
      CatTiles(code, exps, andstack);
      var n := |andstack| - 2;
      ghost var was := code;
      var op2, op1 := andstack[n+1], andstack[n];
      link(op1.last, op2.first);
      assert code == Patched(was, op1.last, op2.first, []);
      andstack := andstack[..n] + [Node(op1.first, op2.last)];
      exps := exps[..n] + [Cat(exps[n], exps[n+1])];
    }

    /** The cases of a star and a plus. */
    method repeat(op: Op)
      requires Valid() && |andstack| > 0 && (op == STAR || op == PLUS) && |code| < room
      modifies this
      ensures |code| == |old(code)| + 1
      ensures Valid() && Abs() == old(Abs()).(ands := old(exps)[..|old(exps)|-1] + [Postfix(op, old(exps[|exps|-1]))])
    {
      hide Tiles, Linked;
      LoopTiles(code, exps, andstack, op);
      var n := |andstack| - 1;
      ghost var was := code;
      var op2 := andstack[n];
      var inst1 := newinst(Or(op2.first, 0));
      link(op2.last, inst1);
      OrLinks(op2.first, 0);
      assert code == Patched(was, op2.last, |was|, [Or(op2.first, 0)]);
      andstack := andstack[..n] + [if op == STAR then Node(inst1, inst1) else Node(op2.first, inst1)];
      exps := exps[..n] + [Postfix(op, exps[n])];
    }

    /** The case of a question mark. */
    method option()
      requires Valid() && |andstack| > 0 && |code| + 2 <= room
      modifies this
      ensures |code| == |old(code)| + 2
      ensures Valid() && Abs() == old(Abs()).(ands := old(exps)[..|old(exps)|-1] + [Postfix(QUEST, old(exps[|exps|-1]))])
    {
      hide Tiles, Linked;
      QuestTiles(code, exps, andstack);
      var n := |andstack| - 1;
      ghost var was := code;
      var op2 := andstack[n];
      var inst1 := newinst(Or(op2.first, 0));
      var inst2 := newinst(Nop(0));
      link(inst1, inst2);
      link(op2.last, inst2);
      OrLinks(op2.first, inst2);
      assert code == Patched(was, op2.last, |was| + 1, [Or(op2.first, |was| + 1), Nop(0)]);
      andstack := andstack[..n] + [Node(inst1, inst2)];
      exps := exps[..n] + [Postfix(QUEST, exps[n])];
    }

    /** Pops an operator and builds the code it stands for. */
    method reduce() returns (status: Status)
      requires Valid() && |atorstack| > 0 && Ahead() <= room
      modifies this
      ensures Follows(status, Abs(), Reduce(old(Abs())))
      ensures status == Fine ==> Valid()
      ensures Ahead() <= old(Ahead())
    {
      hide Tiles;
      var k := |atorstack| - 1;
      assert atorstack == atorstack[..k] + [atorstack[k]];
      OneWeight(atorstack[..k], atorstack[k]);
      var op, id := atorstack[k], subidstack[k];
      atorstack, subidstack := atorstack[..k], subidstack[..k];
      match op {
        case START1 => return Failed(UnknownOperator);
        case START => return Failed(UnknownOperator);
        case RBRA => return Failed(UnknownOperator);
        case LBRA =>
          if |andstack| < 1 { return Failed(MissingOperand); }
          closeGroup(id);
        case OR =>
          if |andstack| < 2 { return Failed(MissingOperand); }
          alternate();
        case CAT =>
          if |andstack| < 2 { return Failed(MissingOperand); }
          catenate();
        case STAR =>
          if |andstack| < 1 { return Failed(MissingOperand); }
          repeat(STAR);
        case PLUS =>
          if |andstack| < 1 { return Failed(MissingOperand); }
          repeat(PLUS);
        case QUEST =>
          if |andstack| < 1 { return Failed(MissingOperand); }
          option();
      }
      return Fine;
    }

    /** Applies operators down to one that binds less tightly than pri, or to a left parenthesis. */
    method evaluntil(pri: Op) returns (status: Status)
      requires Valid() && Ahead() <= room
      modifies this
      ensures Follows(status, Abs(), EvalUntil(old(Abs()), pri))
      ensures status == Fine ==> Valid()
      ensures Ahead() <= old(Ahead())
    {
      hide Tiles, Reduce, Weights;
      while true
        invariant Ahead() <= old(Ahead())
        invariant Valid() && EvalUntil(Abs(), pri) == EvalUntil(old(Abs()), pri)
        decreases |atorstack|
      {
        var k := |atorstack| - 1;
        if k < 0 {
          return Failed(UnknownOperator);
        }
        if !(pri == RBRA || Prec(atorstack[k]) >= Prec(pri)) {
          return Fine;
        }
        var op := atorstack[k];
        status := reduce();
        if status != Fine || op == LBRA {
          return;
        }
      }
    }

    /** An operator other than a left parenthesis, its table entries adjusted already. */
    method infix(t: Op) returns (status: Status)
      requires Valid() && Ahead() <= room
      modifies this
      ensures Follows(status, Abs(), Infix(old(Abs()), t))
      ensures status == Fine ==> Valid()
      ensures Ahead() <= old(Ahead()) + Weight(t)
    {
      hide Tiles, EvalUntil, Weights;
      status := evaluntil(t);
      if status == Fine && t != RBRA {
        status := pushator(t);
      }
      if status == Fine {
        lastwasand := IsPostfix(t) || t == RBRA;
      }
    }

    method operator(t: Op) returns (status: Status)
      requires Valid() && Ahead() <= room
      modifies this
      ensures Follows(status, Abs(), OperatorStep(old(Abs()), t))
      ensures status == Fine ==> Valid()
      ensures Ahead() <= old(Ahead()) + 2
    {
      hide Tiles, Infix, Weights;
      if t == RBRA {
        nbra := nbra - 1;
        if nbra < 0 {
          return Failed(UnmatchedRight);
        }
      }
      if t == LBRA {
        cursubid := cursubid + 1;
        if cursubid >= NSUBEXP {
          return Failed(TooManySubs);
        }
        nbra := nbra + 1;
        if lastwasand {
          status := infix(CAT);
          if status != Fine {
            return;
          }
        }
        status := pushator(LBRA);
        if status == Fine {
          lastwasand := false;
        }
      } else {
        status := infix(t);
      }
    }

    method operand(inst: Inst) returns (status: Status)
      requires Valid() && Ahead() < room
      modifies this
      ensures Follows(status, Abs(), OperandStep(old(Abs()), Atom(inst)))
      ensures status == Fine ==> Valid()
      ensures Ahead() <= old(Ahead()) + 1
    {
      hide Tiles, Infix, Linked, Weights;
      if lastwasand {
        status := infix(CAT);
        if status != Fine {
          return;
        }
      }
      AtomTiles(code, exps, andstack, inst);
      var i := newinst(inst);
      if |andstack| >= NSTACK {
        return Failed(StackOverflow);
      }
      andstack, exps := andstack + [Node(i, i)], exps + [Atom(inst)];
      lastwasand := true;
      return Fine;
    }

    method token(t: Token) returns (status: Status)
      requires Valid() && Ahead() < room
      modifies this
      ensures Follows(status, Abs(), TokenStep(old(Abs()), t))
      ensures status == Fine ==> Valid()
      ensures Ahead() <= old(Ahead()) + 2
    {
      match t {
        case Operand(inst) => status := operand(inst);
        case Operator(op) => status := operator(op);
      }
    }

    /** Everything is applied, END is appended, and the parentheses are counted. */
    method finish() returns (status: Status)
      requires Valid() && Ahead() < room
      modifies this
      ensures Follows(status, Abs(), Finish(old(Abs())))
      ensures status == Fine ==> Valid()
      ensures Ahead() <= old(Ahead()) + 1
    {
      hide Tiles, EvalUntil, OperandStep, Weights;
      status := evaluntil(START);
      if status == Fine {
        status := operand(End);
      }
      if status == Fine {
        status := evaluntil(START);
      }
      if status == Fine && nbra != 0 {
        status := Failed(UnmatchedLeft);
      }
    }

    /** Every link is moved past the NOPs it leads to. */
    method optimize(ghost rank: seq<nat>)
      requires Compiled(code, rank)
      modifies `code
      ensures AllChased(old(code), rank, code) && |code| == |old(code)|
    {
      hide Linked;
      ghost var prog := code;
      var inst := 0;
      while !code[inst].End?
        invariant inst < |code| == |prog|
        invariant forall k :: 0 <= k < inst ==> Chased(prog, rank, k, code[k])
        invariant forall k :: inst <= k < |prog| ==> code[k] == prog[k]
        decreases |code| - inst
      {
        assert GoodLinks(prog, rank, inst);
        ghost var now := code;
        var target: nat := code[inst].next;
        while code[target].Nop?
          invariant code == now && target < |code|
          invariant Target(prog, rank, target) == Target(prog, rank, prog[inst].next)
          decreases rank[target]
        {
          NopStays(prog, rank, target, code[target]);
          ChaseOn(prog, rank, target, code[target]);
          target := code[target].next;
        }
        NopStays(prog, rank, target, code[target]);
        code := code[inst := Linked(code[inst], target)];
        inst := inst + 1;
      }
      assert inst < |prog| - 1 ==> GoodLinks(prog, rank, inst);
    }

    /** After the last token: the program is closed, its start found and its NOPs removed. */
    method close() returns (status: Status, start: nat, ghost rank: seq<nat>)
      requires Valid() && (Finish(Abs()).Go? ==> Closed(Finish(Abs()).p.ands)) && Ahead() < room
      modifies this
      ensures |code| <= old(Ahead()) + 1
      ensures status == match Finish(old(Abs())) { case Stop(why) => Failed(why) case Go(_) => Fine }
      ensures status == Fine ==> ProgramFor(code, start, rank, Finish(old(Abs())).p.ands[0])
    {
      hide Tiles, Stands, Finish, Compiled, AllChased, Runnable, Matches, Weights, AlwaysRoomy, RoomAs, IsProgram;
      start, rank := 0, [];
      status := finish();
      if status == Fine {
        start := andstack[|andstack|-1].first;
        rank := WholeProgram(code, exps, andstack);
        ghost var prog := code;
        optimize(rank);
        OptimizedRunnable(prog, rank, code, start);
        ProgramRoom(prog, rank, code, start, exps[0]);
        forall text: seq<Rune>, i: nat, j: nat ensures Matches(code, text, start, i, j) <==> (i, j) in Meaning(exps[0], text) {
          OptimizedMatches(prog, rank, code, start, text, i, j);
        }
      }
    }
  }

  /** A finished pattern: nothing, or an expression, and then END. */
  predicate Closed(exps: seq<Exp>)
  {
    |exps| == 1 && (exps[0] == Atom(End) || (exps[0].Cat? && exps[0].right == Atom(End) && WellMade(exps[0].left)))
  }

  ghost function Meaning(e: Exp, text: seq<Rune>): Spans
    requires Closed([e])
  {
    if e == Atom(End) then Empty(text) else Lang(e.left, text)
  }

  /** The program runs, matches exactly what e means, and needs just the room that e does. */
  ghost predicate ProgramFor(prog: seq<Inst>, start: nat, rank: seq<nat>, e: Exp)
    requires Closed([e])
  {
    && Runnable(prog, start, rank)
    && (forall text: seq<Rune>, i: nat, j: nat :: Matches(prog, text, start, i, j) <==> (i, j) in Meaning(e, text))
    && (if e == Atom(End) then AlwaysRoomy(prog, 2) else RoomAs(prog, e.left))
  }

  ghost function RankSeq(e: Exp): (r: seq<nat>)
    ensures |r| == Size(e) + 1
  {
    seq(Size(e) + 1, k requires 0 <= k <= Size(e) => if k < Size(e) then RankAt(e, 0, 0, k) else 0)
  }

  /** The whole code of an expression and the END after it. */
  lemma ExpressionProgram(code: seq<Inst>, e: Exp)
    requires WellMade(e) && Stands(code, e, 0, Size(e)) && |code| == Size(e) + 1 && code[Size(e)] == End
    ensures Compiled(code, RankSeq(e)) && First(e, 0) < |code| && !code[First(e, 0)].Nop?
    ensures forall text: seq<Rune>, i: nat, j: nat :: Matches(code, text, First(e, 0), i, j) <==> (i, j) in Lang(e, text)
  {
    hide Stands, First, Step, RankAt;
    var n, rank, start := Size(e), RankSeq(e), First(e, 0);
    FirstIsReal(code, e, 0, n);
    forall k | 0 <= k < n ensures GoodLinks(code, rank, k) {
      LinksAreGood(code, rank, e, 0, n, k);
    }
    forall text: seq<Rune>, i: nat, j: nat ensures Matches(code, text, start, i, j) <==> (i, j) in Lang(e, text) {
      if (i, j) in Lang(e, text) {
        CodeComplete(code, text, e, 0, n, i, j);
        LangInside(e, text);
      }
      if Matches(code, text, start, i, j) {
        var pc: nat :| pc < |code| && code[pc].End? && j <= |text| && Reach(code, text, Conf(start, i), Conf(pc, j));
        assert pc < n ==> GoodLinks(code, rank, pc);
        var p :| PathFromTo(code, text, p, Conf(start, i), Conf(n, j));
        var k := CodeSound(code, text, e, 0, n, p);
        if k < |p| - 1 {
          EndStays(code, text, p[k], p[k+1]);
        }
      }
    }
  }

  lemma EmptyProgram(code: seq<Inst>)
    requires code == [End]
    ensures Compiled(code, [0])
    ensures forall text: seq<Rune>, i: nat, j: nat :: Matches(code, text, 0, i, j) <==> (i, j) in Empty(text)
  {
    forall text: seq<Rune>, i: nat, j: nat ensures Matches(code, text, 0, i, j) <==> (i, j) in Empty(text) {
      if i == j <= |text| {
        ReachSelf(code, text, Conf(0, i));
      }
      if Matches(code, text, 0, i, j) {
        var p :| PathFromTo(code, text, p, Conf(0, i), Conf(0, j));
        if |p| > 1 {
          EndStays(code, text, p[0], p[1]);
        }
      }
    }
  }

  /** A finished compilation before optimizing. */
  lemma WholeProgram(code: seq<Inst>, exps: seq<Exp>, ands: seq<Node>) returns (rank: seq<nat>)
    requires |ands| == |exps| && Closed(exps) && Tiles(code, exps, ands)
    ensures Compiled(code, rank) && ands[0].first < |code| && !code[ands[0].first].Nop?
    ensures if exps[0] == Atom(End) then code == [End] else IsProgram(code, exps[0].left)
    ensures forall text: seq<Rune>, i: nat, j: nat :: Matches(code, text, ands[0].first, i, j) <==> (i, j) in Meaning(exps[0], text)
  {
    hide Matches, Compiled, Stands, RankSeq, Tiles;
    Top(code, exps, ands);
    assert Base(exps, 0) == 0;
    Parts(code, exps[0], 0, 0);
    if exps[0] == Atom(End) {
      rank := [0];
      assert code == [End];
      EmptyProgram(code);
    } else {
      var e := exps[0].left;
      rank := RankSeq(e);
      Parts(code, exps[0].right, Size(e), 0);
      ExpressionProgram(code, e);
    }
  }

  lemma ProgramRoom(prog: seq<Inst>, rank: seq<nat>, opt: seq<Inst>, start: nat, e: Exp)
    requires Closed([e]) && Compiled(prog, rank) && AllChased(prog, rank, opt) && Runnable(opt, start, rank)
    requires if e == Atom(End) then prog == [End] else IsProgram(prog, e.left)
    ensures if e == Atom(End) then AlwaysRoomy(opt, 2) else RoomAs(opt, e.left)
  {
    hide Compiled, AlwaysRoomy, RoomAs, Linked;
    if e == Atom(End) {
      assert Chased(prog, rank, 0, opt[0]);
      EndRoom(opt);
    } else {
      hide AllChased;
      OptimizedRoom(prog, rank, opt, e.left);
    }
  }

  /** What the parser makes of any tokens it accepts. */
  lemma ParsedShape(tokens: seq<Token>)
    requires (forall k :: 0 <= k < |tokens| ==> IsToken(tokens[k])) && Parsed(tokens).Go?
    ensures Closed(Parsed(tokens).p.ands)
  {
    AcceptsOnlyExpressions(tokens);
    if tokens == [] {
    } else {
      var e :| IsAlt(e) && Print(e) == tokens;
      ParsedMeansTheSame(e);
    }
  }

  lemma OrLinks(r: nat, x: nat)
    ensures Fresh(Or(r, 0)) == Or(r, 0) && Linked(Fresh(Or(r, 0)), x) == Or(r, x) && Fresh(Nop(0)) == Nop(0)
  {
  }

  lemma FreshLinks(id: nat, x: nat)
    ensures Fresh(Rbra(id, 0)) == Rbra(id, 0) && Linked(Fresh(Lbra(id, 0)), x) == Lbra(id, x)
  {
  }
}
