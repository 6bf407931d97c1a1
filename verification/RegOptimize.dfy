/** Removal of NOP chains (optimize in regcomp.c). */
module RegOptimize {
  import opened RegProg
  import opened RegCode
  import opened RegExec

  /** Compiled code: descending links everywhere but in the END that closes it. */
  ghost predicate Compiled(prog: seq<Inst>, rank: seq<nat>)
  {
    && |rank| == |prog| > 0 && prog[|prog|-1].End?
    && forall k :: 0 <= k < |prog| - 1 ==> GoodLinks(prog, rank, k)
  }

  /** The first instruction on the way from t that is not a NOP. */
  ghost function Target(prog: seq<Inst>, rank: seq<nat>, t: nat): (r: nat)
    requires Compiled(prog, rank) && t < |prog|
    ensures r < |prog| && !prog[r].Nop? && rank[r] <= rank[t]
    decreases rank[t]
  {
    if prog[t].Nop? then assert GoodLinks(prog, rank, t); Target(prog, rank, prog[t].next) else t
  }

  /** The instruction at k of the optimized program. */
  ghost predicate Chased(prog: seq<Inst>, rank: seq<nat>, k: nat, inst: Inst)
    requires Compiled(prog, rank) && k < |prog|
  {
    if k == |prog| - 1 then inst == prog[k]
    else assert GoodLinks(prog, rank, k); inst == Linked(prog[k], Target(prog, rank, prog[k].next))
  }

  ghost predicate AllChased(prog: seq<Inst>, rank: seq<nat>, opt: seq<Inst>)
    requires Compiled(prog, rank)
  {
    |opt| == |prog| && forall k :: 0 <= k < |prog| ==> Chased(prog, rank, k, opt[k])
  }

  lemma LinkedKind(inst: Inst, x: nat, text: seq<Rune>, i: nat)
    requires i <= |text|
    ensures Linked(inst, x).End? == inst.End? && Linked(inst, x).Nop? == inst.Nop? && Linked(inst, x).Or? == inst.Or?
    ensures !inst.End? ==> Linked(inst, x).next == x
    ensures inst.Or? ==> Linked(inst, x).right == inst.right
    ensures Passes(Linked(inst, x), text, i) == Passes(inst, text, i)
    ensures forall r :: Takes(Linked(inst, x), r) == Takes(inst, r)
  {
  }

  /** Chasing through code that is partly chased already comes to the same place. */
  lemma ChaseOn(prog: seq<Inst>, rank: seq<nat>, t: nat, inst: Inst)
    requires Compiled(prog, rank) && t < |prog| && prog[t].Nop? && (inst == prog[t] || Chased(prog, rank, t, inst))
    ensures inst.Nop? && inst.next < |prog| && rank[inst.next] < rank[t]
    ensures Target(prog, rank, inst.next) == Target(prog, rank, t)
  {
    assert GoodLinks(prog, rank, t);
    LinkedKind(prog[t], Target(prog, rank, prog[t].next), [], 0);
  }

  lemma NopStays(prog: seq<Inst>, rank: seq<nat>, t: nat, inst: Inst)
    requires Compiled(prog, rank) && t < |prog| && (inst == prog[t] || Chased(prog, rank, t, inst))
    ensures inst.Nop? == prog[t].Nop?
  {
    if t < |prog| - 1 {
      assert GoodLinks(prog, rank, t);
      LinkedKind(prog[t], Target(prog, rank, prog[t].next), [], 0);
    }
  }

  /** No link of the optimized program leads to a NOP, and the simulator may run it. */
  lemma OptimizedRunnable(prog: seq<Inst>, rank: seq<nat>, opt: seq<Inst>, start: nat)
    requires Compiled(prog, rank) && AllChased(prog, rank, opt) && start < |prog| && !prog[start].Nop?
    ensures Runnable(opt, start, rank)
  {
    hide Linked;
    forall k | 0 <= k < |opt|
      ensures !opt[k].End? ==> opt[k].next < |opt| && rank[opt[k].next] < rank[k] && !opt[opt[k].next].Nop?
      ensures opt[k].Or? ==> opt[k].right < |opt| && !opt[opt[k].right].Nop?
    {
      if k < |opt| - 1 {
        assert Chased(prog, rank, k, opt[k]);
        assert GoodLinks(prog, rank, k);
        var t := Target(prog, rank, prog[k].next);
        LinkedKind(prog[k], t, [], 0);
        NopStays(prog, rank, t, opt[t]);
        if prog[k].Or? {
          assert Chased(prog, rank, prog[k].right, opt[prog[k].right]);
          NopStays(prog, rank, prog[k].right, opt[prog[k].right]);
        }
      } else {
        assert Chased(prog, rank, k, opt[k]);
      }
    }
    assert Chased(prog, rank, start, opt[start]);
    NopStays(prog, rank, start, opt[start]);
  }

  /** NOPs lead to their target. */
  lemma {:induction false} NopChain(prog: seq<Inst>, rank: seq<nat>, text: seq<Rune>, t: nat, i: nat)
    requires Compiled(prog, rank) && t < |prog| && i <= |text|
    ensures Reach(prog, text, Conf(t, i), Conf(Target(prog, rank, t), i))
    decreases rank[t]
  {
    hide Reach;
    if prog[t].Nop? {
      assert GoodLinks(prog, rank, t);
      Free(prog, text, t, i);
      NopChain(prog, rank, text, prog[t].next, i);
      ReachTrans(prog, text, Conf(t, i), Conf(prog[t].next, i), Conf(Target(prog, rank, t), i));
    } else {
      ReachSelf(prog, text, Conf(t, i));
    }
  }

  /** A step of the optimized program is a way through the original. */
  lemma StepBack(prog: seq<Inst>, rank: seq<nat>, opt: seq<Inst>, text: seq<Rune>, c: Conf, d: Conf)
    requires Compiled(prog, rank) && AllChased(prog, rank, opt) && Step(opt, text, c, d)
    ensures Reach(prog, text, c, d)
  {
    hide Linked, Reach, Passes, Takes, Target;
    assert c.pc < |opt| && Chased(prog, rank, c.pc, opt[c.pc]);
    if c.pc < |prog| - 1 {
      assert GoodLinks(prog, rank, c.pc);
      LinkedKind(prog[c.pc], Target(prog, rank, prog[c.pc].next), text, c.i);
      ReachSelf(prog, text, c);
      if EpsStep(opt, text, c, d) && d.pc != opt[c.pc].next {
        ReachStep(prog, text, c, c, d);
      } else {
        var e := Conf(prog[c.pc].next, d.i);
        ReachStep(prog, text, c, c, e);
        NopChain(prog, rank, text, e.pc, d.i);
        ReachTrans(prog, text, c, e, d);
      }
    } else {
      assert false by { EndStays(opt, text, c, d); }
    }
  }

  lemma EndStays(prog: seq<Inst>, text: seq<Rune>, c: Conf, d: Conf)
    requires c.pc < |prog| && prog[c.pc].End?
    ensures !Step(prog, text, c, d)
  {
  }

  lemma {:induction false} PathBack(prog: seq<Inst>, rank: seq<nat>, opt: seq<Inst>, text: seq<Rune>, p: seq<Conf>, c: Conf, d: Conf)
    requires Compiled(prog, rank) && AllChased(prog, rank, opt) && PathFromTo(opt, text, p, c, d)
    ensures Reach(prog, text, c, d)
    decreases |p|
  {
    hide Reach, Step, AllChased, Compiled;
    if |p| == 1 {
      ReachSelf(prog, text, c);
    } else {
      var q, e := LastStep(opt, text, p, c, d);
      PathBack(prog, rank, opt, text, q, c, e);
      StepBack(prog, rank, opt, text, e, d);
      ReachTrans(prog, text, c, e, d);
    }
  }

  /** A step of the original, with the NOPs left out, is one of the optimized program or none. */
  lemma StepOn(prog: seq<Inst>, rank: seq<nat>, opt: seq<Inst>, text: seq<Rune>, c: Conf, d: Conf)
    requires Compiled(prog, rank) && AllChased(prog, rank, opt) && Step(prog, text, c, d)
    ensures c.pc < |prog| && d.pc < |prog|
    ensures Reach(opt, text, Conf(Target(prog, rank, c.pc), c.i), Conf(Target(prog, rank, d.pc), d.i))
  {
    hide Linked, Reach, Passes, Takes;
    if c.pc < |prog| - 1 {
      assert GoodLinks(prog, rank, c.pc);
      ReachSelf(opt, text, Conf(Target(prog, rank, c.pc), c.i));
      if prog[c.pc].Nop? {
        NopStep(prog, text, c, d);
      } else {
        assert Chased(prog, rank, c.pc, opt[c.pc]);
        LinkedKind(prog[c.pc], Target(prog, rank, prog[c.pc].next), text, c.i);
        var e := Conf(Target(prog, rank, d.pc), d.i);
        assert Step(opt, text, c, e);
        ReachStep(opt, text, c, c, e);
      }
    } else {
      assert false by { EndStays(prog, text, c, d); }
    }
  }

  lemma NopStep(prog: seq<Inst>, text: seq<Rune>, c: Conf, d: Conf)
    requires Step(prog, text, c, d) && prog[c.pc].Nop?
    ensures d == Conf(prog[c.pc].next, c.i)
  {
  }

  lemma {:induction false} PathOn(prog: seq<Inst>, rank: seq<nat>, opt: seq<Inst>, text: seq<Rune>, p: seq<Conf>, c: Conf, d: Conf)
    requires Compiled(prog, rank) && AllChased(prog, rank, opt) && PathFromTo(prog, text, p, c, d) && c.pc < |prog|
    ensures d.pc < |prog|
    ensures Reach(opt, text, Conf(Target(prog, rank, c.pc), c.i), Conf(Target(prog, rank, d.pc), d.i))
    decreases |p|
  {
    hide Reach, Step, AllChased, Compiled;
    var c' := Conf(Target(prog, rank, c.pc), c.i);
    if |p| == 1 {
      ReachSelf(opt, text, c');
    } else {
      var q, e := LastStep(prog, text, p, c, d);
      PathOn(prog, rank, opt, text, q, c, e);
      StepOn(prog, rank, opt, text, e, d);
      ReachTrans(opt, text, c', Conf(Target(prog, rank, e.pc), e.i), Conf(Target(prog, rank, d.pc), d.i));
    }
  }

  /** The optimized program matches the same spans. */
  lemma OptimizedMatches(prog: seq<Inst>, rank: seq<nat>, opt: seq<Inst>, start: nat, text: seq<Rune>, i: nat, j: nat)
    requires Compiled(prog, rank) && AllChased(prog, rank, opt) && start < |prog| && !prog[start].Nop?
    ensures Matches(opt, text, start, i, j) <==> Matches(prog, text, start, i, j)
  {
    if Matches(opt, text, start, i, j) {
      var pc: nat :| pc < |opt| && opt[pc].End? && Reach(opt, text, Conf(start, i), Conf(pc, j));
      var p :| PathFromTo(opt, text, p, Conf(start, i), Conf(pc, j));
      PathBack(prog, rank, opt, text, p, Conf(start, i), Conf(pc, j));
      EndKept(prog, rank, opt, pc);
    }
    if Matches(prog, text, start, i, j) {
      var pc: nat :| pc < |prog| && prog[pc].End? && Reach(prog, text, Conf(start, i), Conf(pc, j));
      var p :| PathFromTo(prog, text, p, Conf(start, i), Conf(pc, j));
      PathOn(prog, rank, opt, text, p, Conf(start, i), Conf(pc, j));
      EndKept(prog, rank, opt, pc);
    }
  }

  lemma EndKept(prog: seq<Inst>, rank: seq<nat>, opt: seq<Inst>, pc: nat)
    requires Compiled(prog, rank) && AllChased(prog, rank, opt) && pc < |prog|
    ensures opt[pc].End? == prog[pc].End?
  {
    assert Chased(prog, rank, pc, opt[pc]);
    if pc < |prog| - 1 {
      assert GoodLinks(prog, rank, pc);
      LinkedKind(prog[pc], Target(prog, rank, prog[pc].next), [], 0);
    }
  }
}
