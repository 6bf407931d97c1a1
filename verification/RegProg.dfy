/** Compiled regular expressions: instructions and what it means for them to match. */
module RegProg {
  type Rune = nat

  const NL: Rune := 10

  /** Instructions; next is the left link of the C union.  A sub-expression id is at least 1. */
  datatype Inst =
    | Char(r: Rune, next: nat)
    | Any(next: nat)
    | AnyNl(next: nat)
    | Class(spans: seq<(Rune, Rune)>, next: nat)
    | NClass(spans: seq<(Rune, Rune)>, next: nat)
    | Bol(next: nat)
    | Eol(next: nat)
    | Lbra(subid: nat, next: nat)
    | Rbra(subid: nat, next: nat)
    | Or(right: nat, next: nat)
    | Nop(next: nat)
    | End

  predicate InSpans(spans: seq<(Rune, Rune)>, r: Rune)
  {
    exists k :: 0 <= k < |spans| && spans[k].0 <= r <= spans[k].1
  }

  /** The instruction takes the character r. */
  predicate Takes(inst: Inst, r: Rune)
  {
    match inst
    case Char(c, _) => c == r
    case Any(_) => r != NL
    case AnyNl(_) => true
    case Class(spans, _) => InSpans(spans, r)
    case NClass(spans, _) => !InSpans(spans, r)
    case _ => false
  }

  predicate AtBol(text: seq<Rune>, i: nat)
    requires i <= |text|
  {
    i == 0 || text[i-1] == NL
  }

  predicate AtEol(text: seq<Rune>, i: nat)
    requires i <= |text|
  {
    i == |text| || text[i] == NL
  }

  /** The instruction passes control to its next link without taking a character. */
  predicate Passes(inst: Inst, text: seq<Rune>, i: nat)
    requires i <= |text|
  {
    inst.Lbra? || inst.Rbra? || inst.Or? || inst.Nop? || (inst.Bol? && AtBol(text, i)) || (inst.Eol? && AtEol(text, i))
  }

  /** Every link an instruction can follow stays inside the program. */
  predicate WellFormed(prog: seq<Inst>)
  {
    forall k :: 0 <= k < |prog| ==>
      (!prog[k].End? ==> prog[k].next < |prog|) && (prog[k].Or? ==> prog[k].right < |prog|)
  }

  /** A position of the non-deterministic machine: an instruction and a place in the text. */
  datatype Conf = Conf(pc: nat, i: nat)

  ghost predicate EpsStep(prog: seq<Inst>, text: seq<Rune>, c: Conf, d: Conf)
  {
    && c.pc < |prog| && c.i <= |text| && d.i == c.i && Passes(prog[c.pc], text, c.i)
    && (d.pc == prog[c.pc].next || (prog[c.pc].Or? && d.pc == prog[c.pc].right))
  }

  ghost predicate TakeStep(prog: seq<Inst>, text: seq<Rune>, c: Conf, d: Conf)
  {
    && c.pc < |prog| && c.i < |text| && d.i == c.i + 1 && Takes(prog[c.pc], text[c.i])
    && !prog[c.pc].End? && d.pc == prog[c.pc].next
  }

  ghost predicate Step(prog: seq<Inst>, text: seq<Rune>, c: Conf, d: Conf)
  {
    EpsStep(prog, text, c, d) || TakeStep(prog, text, c, d)
  }

  ghost predicate IsPath(prog: seq<Inst>, text: seq<Rune>, p: seq<Conf>)
  {
    |p| > 0 && forall k :: 0 <= k < |p| - 1 ==> Step(prog, text, p[k], p[k+1])
  }

  ghost predicate PathFromTo(prog: seq<Inst>, text: seq<Rune>, p: seq<Conf>, c: Conf, d: Conf)
  {
    IsPath(prog, text, p) && p[0] == c && p[|p|-1] == d
  }

  ghost predicate Reach(prog: seq<Inst>, text: seq<Rune>, c: Conf, d: Conf)
  {
    exists p :: PathFromTo(prog, text, p, c, d)
  }

  /** The span [i, j) of the text takes the program from its start to an End. */
  ghost predicate Matches(prog: seq<Inst>, text: seq<Rune>, start: nat, i: nat, j: nat)
  {
    exists pc: nat :: pc < |prog| && prog[pc].End? && j <= |text| && Reach(prog, text, Conf(start, i), Conf(pc, j))
  }

  lemma ReachSelf(prog: seq<Inst>, text: seq<Rune>, c: Conf)
    ensures Reach(prog, text, c, c)
  {
    assert PathFromTo(prog, text, [c], c, c);
  }

  lemma ReachStep(prog: seq<Inst>, text: seq<Rune>, c: Conf, d: Conf, e: Conf)
    requires Reach(prog, text, c, d) && Step(prog, text, d, e)
    ensures Reach(prog, text, c, e)
  {
    var p :| PathFromTo(prog, text, p, c, d);
    var q := p + [e];
    forall k | 0 <= k < |q| - 1 ensures Step(prog, text, q[k], q[k+1]) {
      if k < |p| - 1 { assert q[k] == p[k] && q[k+1] == p[k+1]; }
    }
    assert PathFromTo(prog, text, q, c, e);
  }

  /** A path that is not a single position has a last step. */
  lemma LastStep(prog: seq<Inst>, text: seq<Rune>, p: seq<Conf>, c: Conf, e: Conf) returns (q: seq<Conf>, d: Conf)
    requires PathFromTo(prog, text, p, c, e) && |p| > 1
    ensures PathFromTo(prog, text, q, c, d) && |q| == |p| - 1 && Step(prog, text, d, e)
  {
    q := p[..|p|-1];
    d := q[|q|-1];
    forall k | 0 <= k < |q| - 1 ensures Step(prog, text, q[k], q[k+1]) {
      assert q[k] == p[k] && q[k+1] == p[k+1];
    }
    assert Step(prog, text, p[|p|-2], p[|p|-1]);
  }

}
