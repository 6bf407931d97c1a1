/** The thread-list simulator (rregexec.c, regaux.c) against the paths of the machine. */
module RegExec {
  import opened RegProg

  /** A thread: the instruction to run and the text position its match began at. */
  datatype Thread = Thread(pc: nat, sp: nat)

  /** The saved match: mp[0], with NoMatch for a nil mp[0].sp. */
  datatype Match = NoMatch | Span(sp: nat, ep: nat)

  /** The list after a request for instruction ip with start sp, looking from index from on. */
  function Renew(t: seq<Thread>, from: nat, ip: nat, sp: nat): (r: seq<Thread>)
    requires from <= |t|
    ensures |r| == |t| || |r| == |t| + 1
    decreases |t| - from
  {
    if from == |t| then t + [Thread(ip, sp)]
    else if t[from].pc == ip then (if sp < t[from].sp then t[from := Thread(ip, sp)] else t)
    else Renew(t, from + 1, ip, sp)
  }

  /** A terminated thread array. */
  class ThreadList {
    var t: seq<Thread>

    constructor ()
      ensures t == []
    {
      t := [];
    }

    /** Ends with the new length when a thread was added, with 0 when one was there already. */
    method renewthread(lp: nat, ip: nat, sp: nat) returns (end: nat)
      requires lp <= |t|
      modifies this
      ensures t == Renew(old(t), lp, ip, sp)
      ensures end == if |t| > |old(t)| then |t| else 0
    {
      var p := lp;
      while p < |t|
        invariant lp <= p <= |t|
        invariant t == old(t)
        invariant Renew(t, lp, ip, sp) == Renew(t, p, ip, sp)
      {
        if t[p].pc == ip {
          if sp < t[p].sp {
            t := t[p := Thread(ip, sp)];
          }
          return 0;
        }
        p := p + 1;
      }
      t := t + [Thread(ip, sp)];
      return |t|;
    }

    /** Adds a thread that begins here, whatever room there is. */
    method renewemptythread(ip: nat, sp: nat)
      modifies this
      ensures t == Renew(old(t), 0, ip, sp)
    {
      var p := 0;
      while p < |t|
        invariant 0 <= p <= |t|
        invariant t == old(t)
        invariant Renew(t, 0, ip, sp) == Renew(t, p, ip, sp)
      {
        if t[p].pc == ip {
          if sp < t[p].sp {
            t := t[p := Thread(ip, sp)];
          }
          return;
        }
        p := p + 1;
      }
      t := t + [Thread(ip, sp)];
    }
  }

  /** A thread from index from on runs pc and began no later than a. */
  ghost predicate Covers(t: seq<Thread>, from: nat, pc: nat, a: nat)
  {
    exists k :: from <= k < |t| && t[k].pc == pc && t[k].sp <= a
  }

  /** Whatever t covers t' covers too. */
  ghost predicate CoversMore(t: seq<Thread>, t': seq<Thread>)
  {
    forall pc: nat, a: nat {:trigger Covers(t', 0, pc, a)} :: Covers(t, 0, pc, a) ==> Covers(t', 0, pc, a)
  }

  /** What Renew keeps and adds. */
  lemma {:induction false} RenewCovers(t: seq<Thread>, from: nat, ip: nat, sp: nat)
    requires from <= |t|
    ensures Covers(Renew(t, from, ip, sp), from, ip, sp)
    ensures forall k :: 0 <= k < from ==> Renew(t, from, ip, sp)[k] == t[k]
    ensures forall k :: 0 <= k < |t| ==>
      && Renew(t, from, ip, sp)[k].pc == t[k].pc && Renew(t, from, ip, sp)[k].sp <= t[k].sp
    ensures forall k :: 0 <= k < |Renew(t, from, ip, sp)| ==>
      Renew(t, from, ip, sp)[k] == Thread(ip, sp) || (k < |t| && Renew(t, from, ip, sp)[k] == t[k])
    decreases |t| - from
  {
    var r := Renew(t, from, ip, sp);
    if from == |t| {
      assert r[from] == Thread(ip, sp);
    } else if t[from].pc == ip {
      assert r[from].pc == ip && r[from].sp <= sp;
    } else {
      RenewCovers(t, from + 1, ip, sp);
      var k :| from + 1 <= k < |r| && r[k].pc == ip && r[k].sp <= sp;
      assert from <= k;
    }
  }

  lemma RenewMono(t: seq<Thread>, lp: nat, ip: nat, sp: nat, from: nat, pc: nat, a: nat)
    requires lp <= |t| && Covers(t, from, pc, a)
    ensures Covers(Renew(t, lp, ip, sp), from, pc, a)
  {
    RenewCovers(t, lp, ip, sp);
    var k :| from <= k < |t| && t[k].pc == pc && t[k].sp <= a;
    assert Renew(t, lp, ip, sp)[k].pc == pc;
  }

  /** Every thread of the list is a real one at position s. */
  ghost predicate Genuine(prog: seq<Inst>, text: seq<Rune>, start: nat, s: nat, t: seq<Thread>)
  {
    forall k :: 0 <= k < |t| ==>
      && t[k].pc < |prog| && !prog[t[k].pc].Nop?
      && Reach(prog, text, Conf(start, t[k].sp), Conf(t[k].pc, s))
  }

  /** Instruction pc is entered at s by taking a character, in a run begun at a. */
  ghost predicate Enters(prog: seq<Inst>, text: seq<Rune>, start: nat, s: nat, a: nat, pc: nat)
  {
    exists d: Conf :: Reach(prog, text, Conf(start, a), d) && TakeStep(prog, text, d, Conf(pc, s))
  }

  /** Every entry at s is on the list, with a start at least as early. */
  ghost predicate HasEntries(prog: seq<Inst>, text: seq<Rune>, start: nat, s: nat, t: seq<Thread>)
  {
    forall a: nat, pc: nat :: Enters(prog, text, start, s, a, pc) ==> Covers(t, 0, pc, a)
  }

  /** A set of visited pairs (instruction, start) has seen pc with a start no later than a. */
  ghost predicate Seen(visited: set<Thread>, pc: nat, a: nat)
  {
    exists b: nat :: b <= a && Thread(pc, b) in visited
  }

  ghost predicate Held(visited: set<Thread>, pending: seq<Thread>, pc: nat, a: nat)
  {
    Seen(visited, pc, a) || Covers(pending, 0, pc, a)
  }

  /** A saved match at least as good as [i, j): it begins earlier, or as early and ends no sooner. */
  predicate AtLeast(m: Match, i: nat, j: nat)
  {
    m.Span? && (m.sp < i || (m.sp == i && m.ep >= j))
  }

  /**
   * One position under way: entries and the start are visited or pending, and everything
   * visited has its free moves visited or pending, its character moves on the next list and
   * its match saved.
   */
  ghost predicate Working(prog: seq<Inst>, text: seq<Rune>, start: nat, s: nat, visited: set<Thread>,
                          pending: seq<Thread>, nl: seq<Thread>, best: Match)
  {
    && (forall a: nat, pc: nat :: Enters(prog, text, start, s, a, pc) ==> Held(visited, pending, pc, a))
    && Held(visited, pending, start, s)
    && (forall t: Thread, pc: nat :: t in visited && EpsStep(prog, text, Conf(t.pc, s), Conf(pc, s)) ==> Held(visited, pending, pc, t.sp))
    && (forall t: Thread, pc: nat :: t in visited && TakeStep(prog, text, Conf(t.pc, s), Conf(pc, s + 1)) ==> Covers(nl, 0, pc, t.sp))
    && (forall t: Thread :: t in visited && t.pc < |prog| && prog[t.pc].End? ==> AtLeast(best, t.sp, s))
  }

  /** The saved match is a real one. */
  ghost predicate Honest(prog: seq<Inst>, text: seq<Rune>, start: nat, best: Match)
  {
    best.Span? ==> Matches(prog, text, start, best.sp, best.ep)
  }

  /** With nothing pending, every run that stands at s has been visited. */
  lemma {:induction false} AllVisited(prog: seq<Inst>, text: seq<Rune>, start: nat, s: nat, visited: set<Thread>,
                                      nl: seq<Thread>, best: Match, p: seq<Conf>, a: nat, pc: nat)
    requires Working(prog, text, start, s, visited, [], nl, best)
    requires PathFromTo(prog, text, p, Conf(start, a), Conf(pc, s))
    ensures Seen(visited, pc, a)
    decreases |p|
  {
    if |p| == 1 {
      assert Held(visited, [], start, s);
    } else {
      var q, d := LastStep(prog, text, p, Conf(start, a), Conf(pc, s));
      if d.i == s && EpsStep(prog, text, d, Conf(pc, s)) {
        AllVisited(prog, text, start, s, visited, nl, best, q, a, d.pc);
        var b: nat :| b <= a && Thread(d.pc, b) in visited;
        assert Held(visited, [], pc, b);
        var b': nat :| b' <= b && Thread(pc, b') in visited;
      } else {
        assert Reach(prog, text, Conf(start, a), d);
        assert Enters(prog, text, start, s, a, pc);
        assert Held(visited, [], pc, a);
      }
    }
  }

  /** A finished position leaves a complete next list. */
  lemma EntriesNext(prog: seq<Inst>, text: seq<Rune>, start: nat, s: nat, visited: set<Thread>, nl: seq<Thread>, best: Match)
    requires Working(prog, text, start, s, visited, [], nl, best)
    ensures HasEntries(prog, text, start, s + 1, nl)
  {
    forall a: nat, pc: nat | Enters(prog, text, start, s + 1, a, pc) ensures Covers(nl, 0, pc, a) {
      var d :| Reach(prog, text, Conf(start, a), d) && TakeStep(prog, text, d, Conf(pc, s + 1));
      var p :| PathFromTo(prog, text, p, Conf(start, a), d);
      assert d == Conf(d.pc, s);
      AllVisited(prog, text, start, s, visited, nl, best, p, a, d.pc);
      var b: nat :| b <= a && Thread(d.pc, b) in visited;
      assert Covers(nl, 0, pc, b);
      var k :| 0 <= k < |nl| && nl[k].pc == pc && nl[k].sp <= b;
    }
  }

  /** A finished position has saved every match that ends there. */
  lemma MatchesSaved(prog: seq<Inst>, text: seq<Rune>, start: nat, s: nat, visited: set<Thread>, nl: seq<Thread>, best: Match, i: nat)
    requires Working(prog, text, start, s, visited, [], nl, best)
    requires Matches(prog, text, start, i, s)
    ensures AtLeast(best, i, s)
  {
    var pc: nat :| pc < |prog| && prog[pc].End? && Reach(prog, text, Conf(start, i), Conf(pc, s));
    var p :| PathFromTo(prog, text, p, Conf(start, i), Conf(pc, s));
    AllVisited(prog, text, start, s, visited, nl, best, p, i, pc);
    var b: nat :| b <= i && Thread(pc, b) in visited;
    assert AtLeast(best, b, s);
  }

  /** Visiting the head of the pending list when its free moves are held afterwards. */
  lemma Visit(prog: seq<Inst>, text: seq<Rune>, start: nat, s: nat, visited: set<Thread>, cur: Thread,
              rest: seq<Thread>, rest': seq<Thread>, nl: seq<Thread>, nl': seq<Thread>, best: Match, best': Match)
    requires Working(prog, text, start, s, visited, [cur] + rest, nl, best)
    requires CoversMore(rest, rest')
    requires CoversMore(nl, nl')
    requires forall i: nat, j: nat :: AtLeast(best, i, j) ==> AtLeast(best', i, j)
    requires forall pc: nat :: EpsStep(prog, text, Conf(cur.pc, s), Conf(pc, s)) ==> Held(visited + {cur}, rest', pc, cur.sp)
    requires forall pc: nat :: TakeStep(prog, text, Conf(cur.pc, s), Conf(pc, s + 1)) ==> Covers(nl', 0, pc, cur.sp)
    requires cur.pc < |prog| && prog[cur.pc].End? ==> AtLeast(best', cur.sp, s)
    ensures Working(prog, text, start, s, visited + {cur}, rest', nl', best')
  {
    forall pc: nat, a: nat | Held(visited, [cur] + rest, pc, a) ensures Held(visited + {cur}, rest', pc, a) {
      if Seen(visited, pc, a) {
        var b: nat :| b <= a && Thread(pc, b) in visited;
        assert Thread(pc, b) in visited + {cur};
      } else {
        var pend := [cur] + rest;
        var k :| 0 <= k < |pend| && pend[k].pc == pc && pend[k].sp <= a;
        if k == 0 {
          assert cur == Thread(pc, cur.sp);
        } else {
          assert rest[k-1] == pend[k];
          assert Covers(rest, 0, pc, a);
        }
      }
    }
  }

  /** The links of the program descend in rank, except those an OR takes to the right. */
  ghost predicate Descends(prog: seq<Inst>, rank: seq<nat>)
    requires |rank| == |prog|
  {
    forall k :: 0 <= k < |prog| && !prog[k].End? && prog[k].next < |prog| ==> rank[prog[k].next] < rank[k]
  }

  /** No link of the program leads to a NOP. */
  ghost predicate NoNopLinks(prog: seq<Inst>)
  {
    forall k :: 0 <= k < |prog| ==>
      && (!prog[k].End? && prog[k].next < |prog| ==> !prog[prog[k].next].Nop?)
      && (prog[k].Or? && prog[k].right < |prog| ==> !prog[prog[k].right].Nop?)
  }

  /** A program the simulator may be given. */
  ghost predicate Runnable(prog: seq<Inst>, start: nat, rank: seq<nat>)
  {
    && |rank| == |prog| && WellFormed(prog) && Descends(prog, rank) && NoNopLinks(prog)
    && start < |prog| && !prog[start].Nop?
  }

  // How long the lists get where no loop is free.

  /** The instruction may pass control on without taking a character. */
  predicate MayPass(inst: Inst)
  {
    inst.Lbra? || inst.Rbra? || inst.Bol? || inst.Eol? || inst.Nop? || inst.Or?
  }

  /** How many threads one at k adds to its list at most, with what those add: an OR adds one and goes both ways. */
  predicate CostsAt(prog: seq<Inst>, cost: seq<nat>, k: nat)
    requires |cost| == |prog| && WellFormed(prog) && k < |prog|
  {
    && (prog[k].Or? ==> cost[k] >= 1 + cost[prog[k].right] + cost[prog[k].next])
    && (MayPass(prog[k]) ==> cost[k] >= cost[prog[k].next])
  }

  /** Costs for all instructions; there are none when a loop can be gone round without taking a character. */
  ghost predicate Costs(prog: seq<Inst>, cost: seq<nat>)
  {
    |cost| == |prog| && WellFormed(prog) && forall k :: 0 <= k < |prog| ==> CostsAt(prog, cost, k)
  }

  ghost predicate InProgram(cost: seq<nat>, t: seq<Thread>)
  {
    forall k :: 0 <= k < |t| ==> t[k].pc < |cost|
  }

  /** The threads of the list and all that they add. */
  ghost function AddsAll(cost: seq<nat>, t: seq<Thread>): (n: nat)
    requires InProgram(cost, t)
    ensures n >= |t|
  {
    if t == [] then 0 else 1 + cost[t[0].pc] + AddsAll(cost, t[1..])
  }

  /** The same for one thread at each of the first n instructions that are in on. */
  ghost function AddsUpTo(cost: seq<nat>, on: set<nat>, n: nat): nat
    requires n <= |cost|
  {
    if n == 0 then 0 else AddsUpTo(cost, on, n - 1) + (if n - 1 in on then 1 + cost[n - 1] else 0)
  }

  /** The room one thread for each instruction in on needs at most, with all that these add. */
  ghost function Need(cost: seq<nat>, on: set<nat>): nat
  {
    AddsUpTo(cost, on, |cost|)
  }

  lemma {:induction false} NeedMore(cost: seq<nat>, on: set<nat>, on': set<nat>, n: nat)
    requires n <= |cost| && on <= on'
    ensures AddsUpTo(cost, on, n) <= AddsUpTo(cost, on', n)
  {
    if n > 0 { NeedMore(cost, on, on', n - 1); }
  }

  /** A thread that stands at s - 1, having begun at a, goes to pc with the rune there, or with the NUL at the end. */
  ghost predicate GoesTo(prog: seq<Inst>, text: seq<Rune>, start: nat, s: nat, a: nat, q: nat, pc: nat)
  {
    && 0 < s <= |text| + 1 && q < |prog| && !prog[q].End? && prog[q].next == pc
    && Reach(prog, text, Conf(start, a), Conf(q, s - 1)) && Takes(prog[q], At(text, s - 1))
  }

  ghost predicate Listed(prog: seq<Inst>, text: seq<Rune>, start: nat, s: nat, pc: nat)
  {
    pc == start || exists a: nat, q: nat :: GoesTo(prog, text, start, s, a, q, pc)
  }

  /** The instructions the list for position s begins with: those a rune led to, and the start. */
  ghost function OnList(prog: seq<Inst>, text: seq<Rune>, start: nat, s: nat): set<nat>
  {
    set pc: nat | pc < |prog| && Listed(prog, text, start, s, pc)
  }

  ghost predicate OneEach(t: seq<Thread>)
  {
    forall i, j :: 0 <= i < j < |t| ==> t[i].pc != t[j].pc
  }

  lemma {:induction false} AddsJoin(cost: seq<nat>, a: seq<Thread>, b: seq<Thread>)
    requires InProgram(cost, a) && InProgram(cost, b)
    ensures InProgram(cost, a + b) && AddsAll(cost, a + b) == AddsAll(cost, a) + AddsAll(cost, b)
  {
    if a == [] {
      assert a + b == b;
    } else {
      assert (a + b)[0] == a[0] && (a + b)[1..] == a[1..] + b;
      AddsJoin(cost, a[1..], b);
    }
  }

  lemma AddsOne(cost: seq<nat>, x: Thread)
    requires x.pc < |cost|
    ensures InProgram(cost, [x]) && AddsAll(cost, [x]) == 1 + cost[x.pc]
  {
    assert [x][1..] == [];
  }

  /** Only the instructions count. */
  lemma {:induction false} AddsSame(cost: seq<nat>, t: seq<Thread>, t': seq<Thread>)
    requires InProgram(cost, t) && |t'| == |t| && forall k :: 0 <= k < |t| ==> t'[k].pc == t[k].pc
    ensures InProgram(cost, t') && AddsAll(cost, t') == AddsAll(cost, t)
  {
    if t != [] {
      AddsSame(cost, t[1..], t'[1..]);
    }
  }

  /** A list with one thread for an instruction at most needs no more than there is one of each. */
  lemma {:induction false} OneEachNeeds(cost: seq<nat>, on: set<nat>, t: seq<Thread>, n: nat)
    requires n <= |cost| && OneEach(t) && forall k :: 0 <= k < |t| ==> t[k].pc < n && t[k].pc in on
    ensures InProgram(cost, t) && AddsAll(cost, t) <= AddsUpTo(cost, on, n)
  {
    if n == 0 {
      assert t == [];
    } else if i :| 0 <= i < |t| && t[i].pc == n - 1 {
      WithoutOne(t, i);
      OneEachNeeds(cost, on, t[..i] + t[i+1..], n - 1);
      hide OneEach, AddsAll;
      AddsWithout(cost, t, i);
    } else {
      OneEachNeeds(cost, on, t, n - 1);
    }
  }

  lemma WithoutOne(t: seq<Thread>, i: nat)
    requires i < |t| && OneEach(t)
    ensures var r := t[..i] + t[i+1..]; OneEach(r) && forall k :: 0 <= k < |r| ==> r[k] in t && r[k].pc != t[i].pc
  {
    var r := t[..i] + t[i+1..];
    assert forall k :: 0 <= k < |r| ==> r[k] == t[if k < i then k else k + 1];
  }

  lemma AddsWithout(cost: seq<nat>, t: seq<Thread>, i: nat)
    requires i < |t| && t[i].pc < |cost| && InProgram(cost, t[..i] + t[i+1..])
    ensures InProgram(cost, t)
    ensures AddsAll(cost, t) == AddsAll(cost, t[..i] + t[i+1..]) + 1 + cost[t[i].pc]
  {
    hide AddsAll, InProgram;
    InParts(cost, t[..i], t[i+1..]);
    AddsMiddle(cost, t[..i], t[i], t[i+1..]);
    Divided(t, i);
  }

  lemma InParts(cost: seq<nat>, a: seq<Thread>, b: seq<Thread>)
    requires InProgram(cost, a + b)
    ensures InProgram(cost, a) && InProgram(cost, b)
  {
    assert forall k :: 0 <= k < |a| ==> (a + b)[k] == a[k];
    assert forall k :: 0 <= k < |b| ==> (a + b)[|a|+k] == b[k];
  }

  lemma Divided(t: seq<Thread>, i: nat)
    requires i < |t|
    ensures t == t[..i] + ([t[i]] + t[i+1..])
  {
  }

  lemma AddsMiddle(cost: seq<nat>, a: seq<Thread>, x: Thread, b: seq<Thread>)
    requires InProgram(cost, a) && x.pc < |cost| && InProgram(cost, b)
    ensures InProgram(cost, a + b) && InProgram(cost, a + ([x] + b))
    ensures AddsAll(cost, a + ([x] + b)) == AddsAll(cost, a + b) + 1 + cost[x.pc]
  {
    hide AddsAll, InProgram;
    AddsJoin(cost, a, b);
    AddsOne(cost, x);
    AddsJoin(cost, [x], b);
    AddsJoin(cost, a, [x] + b);
  }

  /** The next list: one thread for an instruction in on, so that there is room for all of them and what they add. */
  ghost predicate NextFits(prog: seq<Inst>, cost: seq<nat>, on: set<nat>, nl: seq<Thread>, cap: nat)
  {
    && |cost| == |prog| && Costs(prog, cost) && InProgram(cost, nl) && OneEach(nl) && Need(cost, on) < cap
    && forall k :: 0 <= k < |nl| ==> nl[k].pc in on
  }

  /** There is room for the threads from lp on and for all that they add. */
  ghost predicate ListFits(prog: seq<Inst>, cost: seq<nat>, on: set<nat>, t: seq<Thread>, lp: nat, nl: seq<Thread>, cap: nat)
  {
    NextFits(prog, cost, on, nl, cap) && lp <= |t| && InProgram(cost, t[lp..]) && lp + AddsAll(cost, t[lp..]) < cap
  }

  /** The same while the thread at lp has come to pc. */
  ghost predicate ThreadFits(prog: seq<Inst>, cost: seq<nat>, on: set<nat>, t: seq<Thread>, lp: nat, pc: nat, nl: seq<Thread>, cap: nat)
  {
    && NextFits(prog, cost, on, nl, cap) && pc < |prog| && lp < |t| && InProgram(cost, t[lp+1..])
    && lp + 1 + cost[pc] + AddsAll(cost, t[lp+1..]) < cap
  }

  lemma ThreadBegins(prog: seq<Inst>, cost: seq<nat>, on: set<nat>, t: seq<Thread>, lp: nat, nl: seq<Thread>, cap: nat)
    requires ListFits(prog, cost, on, t, lp, nl, cap) && lp < |t|
    ensures ThreadFits(prog, cost, on, t, lp, t[lp].pc, nl, cap)
  {
    hide Costs, Need;
    assert t[lp..][0] == t[lp] && t[lp..][1..] == t[lp+1..];
  }

  lemma ThreadEnds(prog: seq<Inst>, cost: seq<nat>, on: set<nat>, t: seq<Thread>, lp: nat, pc: nat, nl: seq<Thread>, nl': seq<Thread>, cap: nat)
    requires ThreadFits(prog, cost, on, t, lp, pc, nl, cap) && NextFits(prog, cost, on, nl', cap)
    ensures ListFits(prog, cost, on, t, lp + 1, nl', cap)
  {
    hide Costs, Need, AddsAll;
  }

  /** An instruction that passes control on. */
  lemma ThreadGoesOn(prog: seq<Inst>, cost: seq<nat>, on: set<nat>, t: seq<Thread>, lp: nat, pc: nat, nl: seq<Thread>, cap: nat)
    requires ThreadFits(prog, cost, on, t, lp, pc, nl, cap)
    requires MayPass(prog[pc])
    ensures ThreadFits(prog, cost, on, t, lp, prog[pc].next, nl, cap)
  {
    hide Need, AddsAll;
    assert CostsAt(prog, cost, pc);
  }

  /** An OR, which may add a thread. */
  lemma ThreadSplits(prog: seq<Inst>, cost: seq<nat>, on: set<nat>, t: seq<Thread>, lp: nat, pc: nat, sp: nat, nl: seq<Thread>, cap: nat)
    requires ThreadFits(prog, cost, on, t, lp, pc, nl, cap) && prog[pc].Or?
    ensures var t' := Renew(t, lp, prog[pc].right, sp); |t'| < cap && ThreadFits(prog, cost, on, t', lp, prog[pc].next, nl, cap)
  {
    var right := prog[pc].right;
    var t' := Renew(t, lp, right, sp);
    assert CostsAt(prog, cost, pc);
    assert right < |prog| && prog[pc].next < |prog| && cost[pc] >= 1 + cost[right] + cost[prog[pc].next];
    hide Costs, Need, AddsAll;
    RenewShape(t, lp, right, sp);
    if |t'| == |t| {
      AddsSame(cost, t[lp+1..], t'[lp+1..]);
    } else {
      AddsSame(cost, t[lp+1..] + [Thread(right, sp)], t'[lp+1..]) by {
        AddsOne(cost, Thread(right, sp));
        AddsJoin(cost, t[lp+1..], [Thread(right, sp)]);
      }
      AddsOne(cost, Thread(right, sp));
      AddsJoin(cost, t[lp+1..], [Thread(right, sp)]);
    }
  }

  /** A request adds one thread behind the others, or leaves all at their instructions and finds its own there. */
  lemma {:induction false} RenewShape(t: seq<Thread>, from: nat, ip: nat, sp: nat)
    requires from <= |t|
    ensures var r := Renew(t, from, ip, sp);
      && (forall k :: 0 <= k < |t| ==> r[k].pc == t[k].pc)
      && (|r| == |t| + 1 ==> r == t + [Thread(ip, sp)] && forall k :: from <= k < |t| ==> t[k].pc != ip)
    decreases |t| - from
  {
    if from < |t| && t[from].pc != ip { RenewShape(t, from + 1, ip, sp); }
  }

  /** A thread that goes to the next list. */
  lemma NextGrows(prog: seq<Inst>, cost: seq<nat>, on: set<nat>, nl: seq<Thread>, ip: nat, sp: nat, cap: nat)
    requires NextFits(prog, cost, on, nl, cap) && ip < |prog| && ip in on
    ensures var r := Renew(nl, 0, ip, sp); |r| < cap && NextFits(prog, cost, on, r, cap)
  {
    hide Costs;
    var r := Renew(nl, 0, ip, sp);
    RenewShape(nl, 0, ip, sp);
    hide Renew;
    assert InProgram(cost, r) && OneEach(r);
    OneEachNeeds(cost, on, r, |prog|);
  }

  /** A next list becomes the current one, and the start is added. */
  lemma ListBegins(prog: seq<Inst>, cost: seq<nat>, on: set<nat>, on': set<nat>, t: seq<Thread>, start: nat, sp: nat, cap: nat)
    requires NextFits(prog, cost, on, t, cap) && start < |prog| && start in on && Need(cost, on') < cap
    ensures |Renew(t, 0, start, sp)| < cap && ListFits(prog, cost, on', Renew(t, 0, start, sp), 0, [], cap)
  {
    hide Costs, AddsAll, AddsUpTo;
    NextGrows(prog, cost, on, t, start, sp, cap);
    var r := Renew(t, 0, start, sp);
    hide Renew;
    OneEachNeeds(cost, on, r, |prog|);
    assert r[0..] == r;
  }

  ghost predicate IsText(text: seq<Rune>)
  {
    forall k :: 0 <= k < |text| ==> text[k] != 0
  }

  /** The rune at s, the terminating NUL at the end. */
  function At(text: seq<Rune>, s: nat): Rune
  {
    if s < |text| then text[s] else 0
  }

  /** Looks through the spans of a class. */
  method InClass(spans: seq<(Rune, Rune)>, r: Rune) returns (found: bool)
    ensures found == InSpans(spans, r)
  {
    for k := 0 to |spans|
      invariant forall j :: 0 <= j < k ==> !(spans[j].0 <= r <= spans[j].1)
    {
      if spans[k].0 <= r <= spans[k].1 {
        return true;
      }
    }
    return false;
  }

  /** What is left of the list behind lp after an OR has added its right branch. */
  lemma OrCovers(t: seq<Thread>, lp: nat, right: nat, visited: set<Thread>)
    requires lp < |t| && t[lp] in visited
    ensures Held(visited, Renew(t, lp, right, t[lp].sp)[lp+1..], right, t[lp].sp)
    ensures CoversMore(t[lp+1..], Renew(t, lp, right, t[lp].sp)[lp+1..])
    ensures Renew(t, lp, right, t[lp].sp)[lp] == t[lp]
  {
    var a := t[lp].sp;
    var r := Renew(t, lp, right, a);
    RenewCovers(t, lp, right, a);
    var k :| lp <= k < |r| && r[k].pc == right && r[k].sp <= a;
    if k == lp {
      assert Thread(right, r[k].sp) in visited;
    } else {
      assert r[lp+1..][k-lp-1] == r[k];
    }
    var rest, rest' := t[lp+1..], r[lp+1..];
    forall pc: nat, b: nat {:trigger Covers(rest', 0, pc, b)} | Covers(rest, 0, pc, b) ensures Covers(rest', 0, pc, b) {
      var j :| 0 <= j < |rest| && rest[j].pc == pc && rest[j].sp <= b;
      assert rest'[j] == r[lp+1+j];
      assert rest'[j].pc == pc;
    }
  }

  lemma RenewGenuine(prog: seq<Inst>, text: seq<Rune>, start: nat, s: nat, t: seq<Thread>, lp: nat, ip: nat, sp: nat)
    requires Genuine(prog, text, start, s, t) && lp <= |t|
    requires ip < |prog| && !prog[ip].Nop? && Reach(prog, text, Conf(start, sp), Conf(ip, s))
    ensures Genuine(prog, text, start, s, Renew(t, lp, ip, sp))
  {
    RenewCovers(t, lp, ip, sp);
  }

  /** The current instruction is visited and control goes on to next. */
  lemma VisitFree(prog: seq<Inst>, text: seq<Rune>, start: nat, s: nat, visited: set<Thread>, cur: Thread, next: nat,
                  rest: seq<Thread>, rest': seq<Thread>, nl: seq<Thread>, best: Match)
    requires cur.pc < |prog| && s <= |text| && Passes(prog[cur.pc], text, s) && prog[cur.pc].next == next
    requires Working(prog, text, start, s, visited, [cur] + rest, nl, best)
    requires CoversMore(rest, rest')
    requires prog[cur.pc].Or? ==> Held(visited + {cur}, rest', prog[cur.pc].right, cur.sp)
    requires Reach(prog, text, Conf(start, cur.sp), Conf(cur.pc, s))
    ensures Working(prog, text, start, s, visited + {cur}, [Thread(next, cur.sp)] + rest', nl, best)
    ensures Reach(prog, text, Conf(start, cur.sp), Conf(next, s))
    ensures prog[cur.pc].Or? ==> Reach(prog, text, Conf(start, cur.sp), Conf(prog[cur.pc].right, s))
  {
    var pend := [Thread(next, cur.sp)] + rest';
    forall pc: nat, a: nat | Covers(rest', 0, pc, a) ensures Covers(pend, 0, pc, a) {
      var k :| 0 <= k < |rest'| && rest'[k].pc == pc && rest'[k].sp <= a;
      assert pend[k+1] == rest'[k];
    }
    assert pend[0] == Thread(next, cur.sp);
    assert Covers(pend, 0, next, cur.sp);
    forall pc: nat | EpsStep(prog, text, Conf(cur.pc, s), Conf(pc, s)) ensures Held(visited + {cur}, pend, pc, cur.sp) {
      if pc != next {
        assert Held(visited + {cur}, rest', pc, cur.sp);
      }
    }
    Visit(prog, text, start, s, visited, cur, rest, pend, nl, nl, best, best);
    ReachStep(prog, text, Conf(start, cur.sp), Conf(cur.pc, s), Conf(next, s));
    if prog[cur.pc].Or? {
      ReachStep(prog, text, Conf(start, cur.sp), Conf(cur.pc, s), Conf(prog[cur.pc].right, s));
    }
  }

  /** The current instruction is visited and the thread ends, perhaps on the next list. */
  lemma VisitTake(prog: seq<Inst>, text: seq<Rune>, start: nat, s: nat, visited: set<Thread>, cur: Thread,
                  rest: seq<Thread>, nl: seq<Thread>, nl': seq<Thread>, best: Match, took: bool)
    requires cur.pc < |prog| && s <= |text| && !Passes(prog[cur.pc], text, s) && !prog[cur.pc].End?
    requires Working(prog, text, start, s, visited, [cur] + rest, nl, best)
    requires took == Takes(prog[cur.pc], At(text, s))
    requires nl' == if took then Renew(nl, 0, prog[cur.pc].next, cur.sp) else nl
    ensures Working(prog, text, start, s, visited + {cur}, rest, nl', best)
  {
    if took {
      RenewCovers(nl, 0, prog[cur.pc].next, cur.sp);
      forall pc: nat, a: nat | Covers(nl, 0, pc, a) ensures Covers(nl', 0, pc, a) {
        RenewMono(nl, 0, prog[cur.pc].next, cur.sp, 0, pc, a);
      }
    }
    Visit(prog, text, start, s, visited, cur, rest, rest, nl, nl', best, best);
  }

  /** Keeps the better of the saved match and a new one. */
  method renewmatch(mp: Match, sp: nat, ep: nat) returns (mp': Match)
    ensures mp' == mp || mp' == Span(sp, ep)
    ensures AtLeast(mp', sp, ep)
    ensures forall i: nat, j: nat :: AtLeast(mp, i, j) ==> AtLeast(mp', i, j)
  {
    mp' := mp;
    if mp.NoMatch? || sp < mp.sp || (sp == mp.sp && ep > mp.ep) {
      mp' := Span(sp, ep);
    }
  }

  /** The simulator's state at position s, between threads. */
  ghost predicate Between(prog: seq<Inst>, text: seq<Rune>, start: nat, s: nat, visited: set<Thread>,
                          t: seq<Thread>, lp: nat, nl: seq<Thread>, best: Match)
  {
    && lp <= |t|
    && Working(prog, text, start, s, visited, t[lp..], nl, best)
    && Genuine(prog, text, start, s, t)
    && (s < |text| ==> Genuine(prog, text, start, s + 1, nl))
    && Honest(prog, text, start, best)
  }

  /** The tests of the switch: whether the instruction takes the rune, and whether control goes on. */
  method Dispatch(inst: Inst, text: seq<Rune>, s: nat, r: Rune) returns (took: bool, passes: bool)
    requires s <= |text| && IsText(text) && r == At(text, s) && !inst.Nop?
    ensures took == Takes(inst, r)
    ensures passes == Passes(inst, text, s)
    ensures took || passes ==> !inst.End?
    ensures inst.Or? ==> passes
  {
    took, passes := false, false;
    match inst {
      case Char(c, _) => took := c == r;
      case Lbra(_, _) => passes := true;
      case Rbra(_, _) => passes := true;
      case Any(_) => took := r != NL;
      case AnyNl(_) => took := true;
      case Bol(_) => passes := s == 0 || text[s-1] == NL;
      case Eol(_) => passes := r == 0 || r == NL;
      case Class(spans, _) => took := InClass(spans, r);
      case NClass(spans, _) =>
        var found := InClass(spans, r);
        took := !found;
      case Or(_, _) => passes := true;
      case End =>
    }
  }

  /** A thread that takes the character at s is a real one at s + 1. */
  lemma TakeGenuine(prog: seq<Inst>, text: seq<Rune>, start: nat, s: nat, cur: Thread, nl: seq<Thread>)
    requires cur.pc < |prog| && s < |text| && Takes(prog[cur.pc], text[s]) && !prog[cur.pc].End?
    requires prog[cur.pc].next < |prog| && !prog[prog[cur.pc].next].Nop?
    requires Reach(prog, text, Conf(start, cur.sp), Conf(cur.pc, s))
    requires Genuine(prog, text, start, s + 1, nl)
    ensures Genuine(prog, text, start, s + 1, Renew(nl, 0, prog[cur.pc].next, cur.sp))
  {
    ReachStep(prog, text, Conf(start, cur.sp), Conf(cur.pc, s), Conf(prog[cur.pc].next, s + 1));
    RenewGenuine(prog, text, start, s + 1, nl, 0, prog[cur.pc].next, cur.sp);
  }

  /** The current instruction is an END: its match is saved. */
  lemma VisitEnd(prog: seq<Inst>, text: seq<Rune>, start: nat, s: nat, visited: set<Thread>, cur: Thread,
                 rest: seq<Thread>, nl: seq<Thread>, best: Match, best': Match)
    requires cur.pc < |prog| && s <= |text| && prog[cur.pc].End?
    requires Working(prog, text, start, s, visited, [cur] + rest, nl, best)
    requires Reach(prog, text, Conf(start, cur.sp), Conf(cur.pc, s))
    requires Honest(prog, text, start, best)
    requires best' == best || best' == Span(cur.sp, s)
    requires AtLeast(best', cur.sp, s)
    requires forall i: nat, j: nat :: AtLeast(best, i, j) ==> AtLeast(best', i, j)
    ensures Working(prog, text, start, s, visited + {cur}, rest, nl, best')
    ensures Honest(prog, text, start, best')
  {
    Visit(prog, text, start, s, visited, cur, rest, rest, nl, nl, best, best');
    assert Matches(prog, text, start, cur.sp, s);
  }

  lemma Links(prog: seq<Inst>, start: nat, rank: seq<nat>, pc: nat)
    requires Runnable(prog, start, rank) && pc < |prog| && !prog[pc].End?
    ensures prog[pc].next < |prog| && !prog[prog[pc].next].Nop?
    ensures pc < |rank| && prog[pc].next < |rank| && rank[prog[pc].next] < rank[pc]
    ensures prog[pc].Or? ==> prog[pc].right < |prog| && !prog[prog[pc].right].Nop?
  {
  }

  lemma ThreadStart(prog: seq<Inst>, text: seq<Rune>, start: nat, s: nat, visited: set<Thread>, t: seq<Thread>, lp: nat,
                    nl: seq<Thread>, best: Match)
    requires Between(prog, text, start, s, visited, t, lp, nl, best) && lp < |t|
    ensures var cur := t[lp];
      && cur.pc < |prog| && !prog[cur.pc].Nop? && Reach(prog, text, Conf(start, cur.sp), Conf(cur.pc, s))
      && Working(prog, text, start, s, visited, [cur] + t[lp+1..], nl, best)
    ensures Genuine(prog, text, start, s, t) && (s < |text| ==> Genuine(prog, text, start, s + 1, nl))
    ensures Honest(prog, text, start, best)
  {
    hide Working, Reach, Honest;
    assert t[lp..] == [t[lp]] + t[lp+1..];
  }

  /** The simulator's state at position s while the thread at lp, begun at a, has come to pc. */
  ghost predicate Midway(prog: seq<Inst>, text: seq<Rune>, start: nat, s: nat, visited: set<Thread>, t: seq<Thread>, lp: nat,
                         a: nat, pc: nat, nl: seq<Thread>, best: Match)
  {
    && s <= |text| && pc < |prog| && !prog[pc].Nop? && Reach(prog, text, Conf(start, a), Conf(pc, s))
    && lp < |t| && t[lp].sp == a && (t[lp].pc == pc || t[lp] in visited)
    && Working(prog, text, start, s, visited, [Thread(pc, a)] + t[lp+1..], nl, best)
    && Genuine(prog, text, start, s, t) && (s < |text| ==> Genuine(prog, text, start, s + 1, nl))
    && Honest(prog, text, start, best)
  }

  lemma MidwayFirst(prog: seq<Inst>, text: seq<Rune>, start: nat, s: nat, visited: set<Thread>, t: seq<Thread>, lp: nat,
                    nl: seq<Thread>, best: Match)
    requires Between(prog, text, start, s, visited, t, lp, nl, best) && lp < |t| && s <= |text|
    ensures Midway(prog, text, start, s, visited, t, lp, t[lp].sp, t[lp].pc, nl, best)
  {
    hide Working, Reach, Genuine, Honest;
    ThreadStart(prog, text, start, s, visited, t, lp, nl, best);
  }

  lemma MidwayLinks(prog: seq<Inst>, text: seq<Rune>, start: nat, s: nat, visited: set<Thread>, t: seq<Thread>, lp: nat,
                    a: nat, pc: nat, nl: seq<Thread>, best: Match, rank: seq<nat>)
    requires Midway(prog, text, start, s, visited, t, lp, a, pc, nl, best) && Runnable(prog, start, rank)
    ensures pc < |prog| == |rank| && !prog[pc].Nop?
    ensures !prog[pc].End? ==> prog[pc].next < |prog| && rank[prog[pc].next] < rank[pc]
    ensures prog[pc].Or? ==> prog[pc].right < |prog|
  {
    hide Working, Reach, Genuine, Honest;
  }

  lemma MidwayGoes(prog: seq<Inst>, text: seq<Rune>, start: nat, s: nat, visited: set<Thread>, t: seq<Thread>, lp: nat,
                   a: nat, pc: nat, nl: seq<Thread>, best: Match, rank: seq<nat>)
    requires Midway(prog, text, start, s, visited, t, lp, a, pc, nl, best) && Runnable(prog, start, rank)
    requires Takes(prog[pc], At(text, s))
    ensures !prog[pc].End? && prog[pc].next in OnList(prog, text, start, s + 1)
  {
    hide Working, Reach, Genuine, Honest;
    assert GoesTo(prog, text, start, s + 1, a, pc, prog[pc].next);
  }

  /** Control goes on. */
  lemma MidwayFree(prog: seq<Inst>, text: seq<Rune>, start: nat, s: nat, visited: set<Thread>, t: seq<Thread>, lp: nat,
                   a: nat, pc: nat, nl: seq<Thread>, best: Match, rank: seq<nat>)
    requires Midway(prog, text, start, s, visited, t, lp, a, pc, nl, best) && Runnable(prog, start, rank)
    requires Passes(prog[pc], text, s) && !prog[pc].Or?
    ensures Midway(prog, text, start, s, visited + {Thread(pc, a)}, t, lp, a, prog[pc].next, nl, best)
  {
    hide Working, Reach, Genuine, Honest, Held, Covers;
    assert !prog[pc].End?;
    Links(prog, start, rank, pc);
    hide Runnable, Passes, CoversMore;
    assert CoversMore(t[lp+1..], t[lp+1..]) by { CoversSame(t[lp+1..]); }
    VisitFree(prog, text, start, s, visited, Thread(pc, a), prog[pc].next, t[lp+1..], t[lp+1..], nl, best);
  }

  lemma CoversSame(t: seq<Thread>)
    ensures CoversMore(t, t)
  {
  }

  /** Control goes on, and the right branch is asked for. */
  lemma MidwaySplit(prog: seq<Inst>, text: seq<Rune>, start: nat, s: nat, visited: set<Thread>, t: seq<Thread>, lp: nat,
                    a: nat, pc: nat, nl: seq<Thread>, best: Match, rank: seq<nat>)
    requires Midway(prog, text, start, s, visited, t, lp, a, pc, nl, best) && Runnable(prog, start, rank) && prog[pc].Or?
    ensures Midway(prog, text, start, s, visited + {Thread(pc, a)}, Renew(t, lp, prog[pc].right, a), lp, a, prog[pc].next, nl, best)
  {
    hide Working, Reach, Genuine, Honest, Held, Covers, CoversMore;
    Links(prog, start, rank, pc);
    var right, seen := prog[pc].right, visited + {Thread(pc, a)};
    var t' := Renew(t, lp, right, a);
    assert t[lp] in seen && Passes(prog[pc], text, s);
    hide Runnable, Renew, Passes;
    OrCovers(t, lp, right, seen);
    VisitFree(prog, text, start, s, visited, Thread(pc, a), prog[pc].next, t[lp+1..], t'[lp+1..], nl, best);
    RenewGenuine(prog, text, start, s, t, lp, right, a);
  }

  /** The thread ends, perhaps on the next list. */
  lemma MidwayTake(prog: seq<Inst>, text: seq<Rune>, start: nat, s: nat, visited: set<Thread>, t: seq<Thread>, lp: nat,
                   a: nat, pc: nat, nl: seq<Thread>, nl': seq<Thread>, best: Match, rank: seq<nat>, took: bool)
    requires Midway(prog, text, start, s, visited, t, lp, a, pc, nl, best) && Runnable(prog, start, rank) && IsText(text)
    requires !Passes(prog[pc], text, s) && !prog[pc].End? && took == Takes(prog[pc], At(text, s))
    requires nl' == if took then Renew(nl, 0, prog[pc].next, a) else nl
    ensures Between(prog, text, start, s, visited + {Thread(pc, a)}, t, lp + 1, nl', best)
  {
    hide Working, Reach, Genuine, Honest, Renew, Passes, Takes;
    Links(prog, start, rank, pc);
    hide Runnable;
    VisitTake(prog, text, start, s, visited, Thread(pc, a), t[lp+1..], nl, nl', best, took);
    if took && s < |text| { TakeGenuine(prog, text, start, s, Thread(pc, a), nl); }
  }

  /** The thread ends with a match. */
  lemma MidwayEnd(prog: seq<Inst>, text: seq<Rune>, start: nat, s: nat, visited: set<Thread>, t: seq<Thread>, lp: nat,
                  a: nat, pc: nat, nl: seq<Thread>, best: Match, best': Match)
    requires Midway(prog, text, start, s, visited, t, lp, a, pc, nl, best) && prog[pc].End?
    requires (best' == best || best' == Span(a, s)) && AtLeast(best', a, s)
    requires forall i: nat, j: nat :: AtLeast(best, i, j) ==> AtLeast(best', i, j)
    ensures Between(prog, text, start, s, visited + {Thread(pc, a)}, t, lp + 1, nl, best')
  {
    hide Working, Reach, Genuine, Honest;
    VisitEnd(prog, text, start, s, visited, Thread(pc, a), t[lp+1..], nl, best, best');
  }

  /** The inner loop: runs the thread at lp until it ends; not ok is a list that ran out of room. */
  method RunThread(prog: seq<Inst>, start: nat, text: seq<Rune>, s: nat, tl: ThreadList, nl: ThreadList, lp: nat,
                   cap: nat, mp: Match, matched: bool, ghost rank: seq<nat>, ghost cost: seq<nat>, ghost on: set<nat>, ghost visited: set<Thread>)
    returns (ok: bool, mp': Match, matched': bool, ghost visited': set<Thread>)
    requires Runnable(prog, start, rank) && s <= |text| && IsText(text) && tl != nl && on == OnList(prog, text, start, s + 1)
    requires lp < |tl.t| <= cap && |nl.t| < cap && matched == mp.Span?
    requires Between(prog, text, start, s, visited, tl.t, lp, nl.t, mp)
    modifies tl, nl
    ensures old(ListFits(prog, cost, on, tl.t, lp, nl.t, cap)) ==> ok && ListFits(prog, cost, on, tl.t, lp + 1, nl.t, cap)
    ensures ok ==> lp < |tl.t| <= cap && |nl.t| < cap && matched' == mp'.Span?
    ensures ok ==> Between(prog, text, start, s, visited', tl.t, lp + 1, nl.t, mp')
    ensures forall i: nat, j: nat :: AtLeast(mp, i, j) ==> AtLeast(mp', i, j)
  {
    hide Midway, Between, Runnable, Passes, Takes, Renew, ListFits, ThreadFits, NextFits;
    ghost var roomy := ListFits(prog, cost, on, tl.t, lp, nl.t, cap);
    MidwayFirst(prog, text, start, s, visited, tl.t, lp, nl.t, mp);
    if roomy { ThreadBegins(prog, cost, on, tl.t, lp, nl.t, cap); }
    var a: nat := tl.t[lp].sp;
    var pc: nat := tl.t[lp].pc;
    var r := At(text, s);
    mp', matched' := mp, matched;
    visited' := visited;
    MidwayLinks(prog, text, start, s, visited, tl.t, lp, a, pc, nl.t, mp, rank);
    while true
      invariant pc < |prog| == |rank| && lp < |tl.t| <= cap && nl.t == old(nl.t) && mp' == mp && matched' == matched
      invariant Midway(prog, text, start, s, visited', tl.t, lp, a, pc, nl.t, mp')
      invariant roomy ==> ThreadFits(prog, cost, on, tl.t, lp, pc, nl.t, cap)
      decreases rank[pc]
    {
      MidwayLinks(prog, text, start, s, visited', tl.t, lp, a, pc, nl.t, mp', rank);
      ghost var seen := visited' + {Thread(pc, a)};
      var inst := prog[pc];
      var took, passes := Dispatch(inst, text, s, r);
      if inst.Or? {
        if roomy { ThreadSplits(prog, cost, on, tl.t, lp, pc, a, nl.t, cap); }
        MidwaySplit(prog, text, start, s, visited', tl.t, lp, a, pc, nl.t, mp', rank);
        var end := tl.renewthread(lp, inst.right, a);
        if end >= cap {
          return false, mp', matched', visited';
        }
      }
      if inst.End? {
        matched' := true;
        mp' := renewmatch(mp', a, s);
      }
      if passes {
        if !inst.Or? {
          MidwayFree(prog, text, start, s, visited', tl.t, lp, a, pc, nl.t, mp', rank);
          if roomy {
            OnlyFree(inst, text, s);
            ThreadGoesOn(prog, cost, on, tl.t, lp, pc, nl.t, cap);
          }
        }
        visited' := seen;
        pc := inst.next;
        continue;
      }
      ghost var was := nl.t;
      if roomy {
        FitsNext(prog, cost, on, tl.t, lp, pc, nl.t, cap);
        if took {
          MidwayGoes(prog, text, start, s, visited', tl.t, lp, a, pc, nl.t, mp', rank);
          NextGrows(prog, cost, on, nl.t, inst.next, a, cap);
        }
      }
      if took {
        var end := nl.renewthread(0, inst.next, a);
        if end >= cap {
          return false, mp', matched', visited';
        }
      }
      if inst.End? {
        MidwayEnd(prog, text, start, s, visited', tl.t, lp, a, pc, nl.t, mp, mp');
      } else {
        MidwayTake(prog, text, start, s, visited', tl.t, lp, a, pc, was, nl.t, mp', rank, took);
      }
      if roomy { ThreadEnds(prog, cost, on, tl.t, lp, pc, was, nl.t, cap); }
      return true, mp', matched', seen;
    }
  }

  lemma OnlyFree(inst: Inst, text: seq<Rune>, s: nat)
    requires s <= |text| && Passes(inst, text, s) && !inst.Or?
    ensures MayPass(inst)
  {
  }

  lemma FitsNext(prog: seq<Inst>, cost: seq<nat>, on: set<nat>, t: seq<Thread>, lp: nat, pc: nat, nl: seq<Thread>, cap: nat)
    requires ThreadFits(prog, cost, on, t, lp, pc, nl, cap)
    ensures NextFits(prog, cost, on, nl, cap)
  {
  }

  /** All matches that end before s are saved. */
  ghost predicate SavedBefore(prog: seq<Inst>, text: seq<Rune>, start: nat, s: nat, best: Match)
  {
    forall i: nat, j: nat :: j < s && Matches(prog, text, start, i, j) ==> AtLeast(best, i, j)
  }

  /** The outer loop's state at position s. */
  ghost predicate AtHead(prog: seq<Inst>, text: seq<Rune>, start: nat, s: nat, t: seq<Thread>, best: Match)
  {
    && Genuine(prog, text, start, s, t) && HasEntries(prog, text, start, s, t)
    && Honest(prog, text, start, best) && SavedBefore(prog, text, start, s, best)
  }

  lemma BeginPosition(prog: seq<Inst>, text: seq<Rune>, start: nat, s: nat, t: seq<Thread>, best: Match)
    requires AtHead(prog, text, start, s, t, best) && start < |prog| && !prog[start].Nop?
    ensures Between(prog, text, start, s, {}, Renew(t, 0, start, s), 0, [], best)
  {
    var t' := Renew(t, 0, start, s);
    assert t'[0..] == t';
    RenewCovers(t, 0, start, s);
    ReachSelf(prog, text, Conf(start, s));
    forall a: nat, pc: nat | Enters(prog, text, start, s, a, pc) ensures Covers(t', 0, pc, a) {
      RenewMono(t, 0, start, s, 0, pc, a);
    }
  }

  lemma EndPosition(prog: seq<Inst>, text: seq<Rune>, start: nat, s: nat, visited: set<Thread>,
                    t: seq<Thread>, nl: seq<Thread>, best: Match, before: Match)
    requires Between(prog, text, start, s, visited, t, |t|, nl, best)
    requires SavedBefore(prog, text, start, s, before)
    requires forall i: nat, j: nat :: AtLeast(before, i, j) ==> AtLeast(best, i, j)
    ensures SavedBefore(prog, text, start, s + 1, best)
    ensures HasEntries(prog, text, start, s + 1, nl)
  {
    assert t[|t|..] == [];
    EntriesNext(prog, text, start, s, visited, nl, best);
    forall i: nat, j: nat | j < s + 1 && Matches(prog, text, start, i, j) ensures AtLeast(best, i, j) {
      if j == s {
        MatchesSaved(prog, text, start, s, visited, nl, best, i);
      }
    }
  }

  /** Where no thread is alive only the start can stand. */
  lemma {:induction false} OnlyStart(prog: seq<Inst>, text: seq<Rune>, start: nat, s: nat, p: seq<Conf>, a: nat, pc: nat)
    requires start < |prog| && prog[start].Char? && HasEntries(prog, text, start, s, [])
    requires PathFromTo(prog, text, p, Conf(start, a), Conf(pc, s))
    ensures pc == start
    decreases |p|
  {
    if |p| > 1 {
      var q, d := LastStep(prog, text, p, Conf(start, a), Conf(pc, s));
      if d.i == s && EpsStep(prog, text, d, Conf(pc, s)) {
        OnlyStart(prog, text, start, s, q, a, d.pc);
      } else {
        assert Reach(prog, text, Conf(start, a), d);
        assert Enters(prog, text, start, s, a, pc);
        assert false;
      }
    }
  }

  /** Skipping to the next possible first character misses nothing. */
  lemma {:induction false} SkipIsSafe(prog: seq<Inst>, text: seq<Rune>, start: nat, s: nat, s': nat, best: Match)
    requires start < |prog| && prog[start].Char? && s <= s' <= |text|
    requires AtHead(prog, text, start, s, [], best)
    requires forall k :: s <= k < s' ==> text[k] != prog[start].r
    ensures AtHead(prog, text, start, s', [], best) && SavedBefore(prog, text, start, s' + 1, best)
    decreases s' - s
  {
    forall i: nat, j: nat | j < s + 1 && Matches(prog, text, start, i, j) ensures AtLeast(best, i, j) {
      if j == s {
        var pc: nat :| pc < |prog| && prog[pc].End? && Reach(prog, text, Conf(start, i), Conf(pc, s));
        var p :| PathFromTo(prog, text, p, Conf(start, i), Conf(pc, s));
        OnlyStart(prog, text, start, s, p, i, pc);
      }
    }
    if s < s' {
      var t := s + 1;
      forall a: nat, pc: nat {:trigger Enters(prog, text, start, t, a, pc)} | Enters(prog, text, start, t, a, pc) ensures false {
        var d :| Reach(prog, text, Conf(start, a), d) && TakeStep(prog, text, d, Conf(pc, s + 1));
        var p :| PathFromTo(prog, text, p, Conf(start, a), d);
        assert d == Conf(d.pc, s);
        OnlyStart(prog, text, start, s, p, a, d.pc);
      }
      SkipIsSafe(prog, text, start, s + 1, s', best);
    }
  }

  /** The next c at or after s, if there is one. */
  method runestrchr(text: seq<Rune>, s: nat, c: Rune) returns (found: bool, p: nat)
    requires s <= |text| && c != 0
    ensures s <= p <= |text| && forall k :: s <= k < p ==> text[k] != c
    ensures found <==> p < |text|
    ensures found ==> text[p] == c
  {
    p := s;
    while p < |text|
      invariant s <= p <= |text|
      invariant forall k :: s <= k < p ==> text[k] != c
    {
      if text[p] == c {
        return true, p;
      }
      p := p + 1;
    }
    return false, p;
  }

  /** Runs every thread of the current list. */
  method RunList(prog: seq<Inst>, start: nat, text: seq<Rune>, s: nat, tl: ThreadList, nl: ThreadList,
                 cap: nat, mp: Match, matched: bool, ghost rank: seq<nat>, ghost cost: seq<nat>, ghost on: set<nat>)
    returns (ok: bool, mp': Match, matched': bool, ghost visited: set<Thread>)
    requires Runnable(prog, start, rank) && s <= |text| && IsText(text) && tl != nl && on == OnList(prog, text, start, s + 1)
    requires |tl.t| <= cap && |nl.t| < cap && matched == mp.Span?
    requires Between(prog, text, start, s, {}, tl.t, 0, nl.t, mp)
    modifies tl, nl
    ensures old(ListFits(prog, cost, on, tl.t, 0, nl.t, cap)) ==> ok && NextFits(prog, cost, on, nl.t, cap)
    ensures ok ==> |tl.t| <= cap && |nl.t| < cap && matched' == mp'.Span?
    ensures ok ==> Between(prog, text, start, s, visited, tl.t, |tl.t|, nl.t, mp')
    ensures ok ==> forall i: nat, j: nat :: AtLeast(mp, i, j) ==> AtLeast(mp', i, j)
  {
    hide Between, ListFits, NextFits;
    ghost var roomy := ListFits(prog, cost, on, tl.t, 0, nl.t, cap);
    mp' := mp;
    matched' := matched;
    visited := {};
    var tlp := 0;
    while tlp < |tl.t|
      invariant roomy ==> ListFits(prog, cost, on, tl.t, tlp, nl.t, cap)
      invariant tlp <= |tl.t| <= cap && |nl.t| < cap && matched' == mp'.Span?
      invariant Between(prog, text, start, s, visited, tl.t, tlp, nl.t, mp')
      invariant forall i: nat, j: nat :: AtLeast(mp, i, j) ==> AtLeast(mp', i, j)
      decreases cap - tlp
    {
      ok, mp', matched', visited := RunThread(prog, start, text, s, tl, nl, tlp, cap, mp', matched', rank, cost, on, visited);
      if !ok {
        return;
      }
      tlp := tlp + 1;
    }
    ok := true;
    if roomy { ListNext(prog, cost, on, tl.t, tlp, nl.t, cap); }
  }

  lemma ListNext(prog: seq<Inst>, cost: seq<nat>, on: set<nat>, t: seq<Thread>, lp: nat, nl: seq<Thread>, cap: nat)
    requires ListFits(prog, cost, on, t, lp, nl, cap)
    ensures NextFits(prog, cost, on, nl, cap)
  {
  }

  /** There is room at each position for the instructions its list begins with and for all that these add. */
  ghost predicate RoomFor(prog: seq<Inst>, start: nat, text: seq<Rune>, cost: seq<nat>, cap: nat)
  {
    Costs(prog, cost) && forall s: nat :: s <= |text| + 1 ==> Need(cost, OnList(prog, text, start, s)) < cap
  }

  /** There is such room for this text. */
  ghost predicate Roomy(prog: seq<Inst>, start: nat, text: seq<Rune>, cap: nat)
  {
    exists cost :: RoomFor(prog, start, text, cost, cap)
  }

  /** All instructions of a program of n. */
  function AllOf(n: nat): (s: set<nat>)
    ensures forall k :: k in s <==> 0 <= k < n
  {
    if n == 0 then {} else AllOf(n - 1) + {n - 1}
  }

  /** There is room for one thread for each instruction and for all that these add. */
  ghost predicate AlwaysRoomy(prog: seq<Inst>, cap: nat)
  {
    exists cost :: Costs(prog, cost) && Need(cost, AllOf(|cost|)) < cap
  }

  /** Then there is room whatever the text. */
  lemma AnyTextRoomy(prog: seq<Inst>, start: nat, text: seq<Rune>, cap: nat)
    requires AlwaysRoomy(prog, cap)
    ensures Roomy(prog, start, text, cap)
  {
    hide Listed, AddsUpTo;
    var cost :| Costs(prog, cost) && Need(cost, AllOf(|cost|)) < cap;
    forall s: nat | s <= |text| + 1 ensures Need(cost, OnList(prog, text, start, s)) < cap {
      NeedMore(cost, OnList(prog, text, start, s), AllOf(|cost|), |cost|);
    }
    assert RoomFor(prog, start, text, cost, cap);
  }

  lemma RoomCost(prog: seq<Inst>, start: nat, text: seq<Rune>, cap: nat) returns (cost: seq<nat>)
    requires Roomy(prog, start, text, cap)
    ensures RoomFor(prog, start, text, cost, cap)
  {
    cost :| RoomFor(prog, start, text, cost, cap);
  }

  lemma NoneFits(prog: seq<Inst>, start: nat, text: seq<Rune>, s: nat, cost: seq<nat>, cap: nat)
    requires RoomFor(prog, start, text, cost, cap) && s <= |text| + 1
    ensures NextFits(prog, cost, OnList(prog, text, start, s), [], cap)
  {
  }

  /** The list for s gets its start, and the next one is empty. */
  lemma PositionBegins(prog: seq<Inst>, start: nat, text: seq<Rune>, s: nat, cost: seq<nat>, t: seq<Thread>, cap: nat)
    requires RoomFor(prog, start, text, cost, cap) && s <= |text| && start < |prog|
    requires NextFits(prog, cost, OnList(prog, text, start, s), t, cap)
    ensures |Renew(t, 0, start, s)| < cap && ListFits(prog, cost, OnList(prog, text, start, s + 1), Renew(t, 0, start, s), 0, [], cap)
  {
    hide Costs, Need, NextFits, ListFits, Renew, GoesTo;
    ListBegins(prog, cost, OnList(prog, text, start, s), OnList(prog, text, start, s + 1), t, start, s, cap);
  }

  lemma BeginText(prog: seq<Inst>, text: seq<Rune>, start: nat)
    ensures AtHead(prog, text, start, 0, [], NoMatch)
  {
  }

  lemma BetweenParts(prog: seq<Inst>, text: seq<Rune>, start: nat, s: nat, visited: set<Thread>,
                     t: seq<Thread>, nl: seq<Thread>, best: Match)
    requires Between(prog, text, start, s, visited, t, |t|, nl, best)
    ensures s < |text| ==> Genuine(prog, text, start, s + 1, nl)
    ensures Honest(prog, text, start, best)
  {
  }

  /** The leftmost match, and of those the longest, or none. */
  ghost predicate LeftmostLongest(prog: seq<Inst>, text: seq<Rune>, start: nat, best: Match)
  {
    && Honest(prog, text, start, best)
    && forall i: nat, j: nat :: Matches(prog, text, start, i, j) ==> AtLeast(best, i, j)
  }

  lemma {:induction false} MatchInText(prog: seq<Inst>, text: seq<Rune>, start: nat, best: Match)
    requires SavedBefore(prog, text, start, |text| + 1, best) && Honest(prog, text, start, best)
    ensures LeftmostLongest(prog, text, start, best)
  {
    forall i: nat, j: nat | Matches(prog, text, start, i, j) ensures AtLeast(best, i, j) {
      assert j < |text| + 1;
    }
  }

  /**
   * The simulator on a text with no end limit, begun at its first character: a result of 0 or 1
   * is right, and mp is the leftmost and then longest span the program matches. It is never -1 on lists
   * with room for what the instructions cost, whatever costs are found for them.
   */
  method rregexec1(prog: seq<Inst>, start: nat, text: seq<Rune>, startchar: Rune, cap: nat, ghost rank: seq<nat>)
    returns (rv: int, mp: Match)
    requires Runnable(prog, start, rank) && IsText(text) && cap > 0
    requires startchar != 0 ==> prog[start].Char? && prog[start].r == startchar
    ensures rv == -1 || rv == 0 || rv == 1
    ensures Roomy(prog, start, text, cap) ==> rv >= 0
    ensures rv >= 0 ==> (rv == 1 <==> mp.Span?) && LeftmostLongest(prog, text, start, mp)
  {
    hide Between, Working, Covers, Reach, Step, Matches, Genuine, HasEntries, SavedBefore, Renew, Roomy, RoomFor, NextFits, ListFits, OnList;
    ghost var roomy := Roomy(prog, start, text, cap);
    ghost var cost: seq<nat> := [];
    if roomy {
      cost := RoomCost(prog, start, text, cap);
      NoneFits(prog, start, text, 0, cost, cap);
    }
    var tl := new ThreadList();
    var nl := new ThreadList();
    var matched := false;
    mp := NoMatch;
    var s := 0;
    var checkstart := startchar != 0;
    BeginText(prog, text, start);
    while true
      invariant s <= |text| && tl != nl && fresh(tl) && fresh(nl)
      invariant |tl.t| < cap && matched == mp.Span?
      invariant checkstart ==> startchar != 0 && tl.t == []
      invariant AtHead(prog, text, start, s, tl.t, mp)
      invariant roomy ==> RoomFor(prog, start, text, cost, cap) && NextFits(prog, cost, OnList(prog, text, start, s), tl.t, cap)
      decreases |text| - s
    {
      if checkstart {
        var found, p := runestrchr(text, s, startchar);
        SkipIsSafe(prog, text, start, s, p, mp);
        if !found {
          MatchInText(prog, text, start, mp);
          return if matched then 1 else 0, mp;
        }
        s := p;
        if roomy { NoneFits(prog, start, text, s, cost, cap); }
      }
      var r := At(text, s);
      nl.t := [];
      ghost var before, was := mp, tl.t;
      ghost var on := OnList(prog, text, start, s + 1);
      if roomy { PositionBegins(prog, start, text, s, cost, tl.t, cap); }
      tl.renewemptythread(start, s);
      BeginPosition(prog, text, start, s, was, mp);
      var ok;
      ghost var visited;
      ok, mp, matched, visited := RunList(prog, start, text, s, tl, nl, cap, mp, matched, rank, cost, on);
      if !ok {
        return -1, mp;
      }
      EndPosition(prog, text, start, s, visited, tl.t, nl.t, mp, before);
      BetweenParts(prog, text, start, s, visited, tl.t, nl.t, mp);
      checkstart := startchar != 0 && nl.t == [];
      s := s + 1;
      tl, nl := nl, tl;
      if r == 0 {
        MatchInText(prog, text, start, mp);
        return if matched then 1 else 0, mp;
      }
    }
  }

  const RUNESELF: Rune := 0x80
  const LISTSIZE: nat := 10

  /** Runs on small lists and again on larger ones; both leave two places free for the terminator. */
  method rregexec(prog: seq<Inst>, start: nat, text: seq<Rune>, ghost rank: seq<nat>) returns (rv: int, mp: Match)
    requires Runnable(prog, start, rank) && IsText(text)
    ensures rv == -1 || rv == 0 || rv == 1
    ensures Roomy(prog, start, text, 5 * LISTSIZE - 2) ==> rv >= 0
    ensures rv >= 0 ==> (rv == 1 <==> mp.Span?) && LeftmostLongest(prog, text, start, mp)
  {
    var startchar := 0;
    if prog[start].Char? && prog[start].r < RUNESELF {
      startchar := prog[start].r;
    }
    rv, mp := rregexec1(prog, start, text, startchar, LISTSIZE - 2, rank);
    if rv >= 0 {
      return;
    }
    rv, mp := rregexec1(prog, start, text, startchar, 5 * LISTSIZE - 2, rank);
  }
}
