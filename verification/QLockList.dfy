/** The waiting list of a sleep lock, through head, tail and qnext (qlock, canqlock and qunlock in lock.c), under its spin lock. */
module QLockList {
  import opened Options
  import QLocks

  class Proc {
    const id: nat
    var qnext: Proc?

    constructor (id: nat)
      ensures this.id == id && qnext == null
    {
      this.id, qnext := id, null;
    }
  }

  function Ids(procs: seq<Proc>): (r: seq<nat>)
    ensures |r| == |procs|
  {
    if procs == [] then [] else [procs[0].id] + Ids(procs[1..])
  }

  lemma {:induction false} IdsJoin(a: seq<Proc>, b: seq<Proc>)
    ensures Ids(a + b) == Ids(a) + Ids(b)
  {
    if a == [] {
      assert a + b == b;
    } else {
      assert (a + b)[0] == a[0] && (a + b)[1..] == a[1..] + b;
      IdsJoin(a[1..], b);
    }
  }

  predicate Distinct(w: seq<Proc>)
  {
    forall i, j :: 0 <= i < j < |w| ==> w[i] != w[j]
  }

  ghost predicate Linked(w: seq<Proc>)
    reads w
  {
    forall i :: 0 <= i < |w| ==> w[i].qnext == Following(w, i)
  }

  function Following(w: seq<Proc>, i: nat): Proc?
  {
    if i + 1 < |w| then w[i+1] else null
  }

  class QLock {
    var locked: bool
    var head: Proc?
    var tail: Proc?
    /** The processes that the list spells out, and what is recorded of those that joined it and left it. */
    ghost var waiting: seq<Proc>
    ghost var asked: seq<nat>
    ghost var given: seq<nat>

    ghost predicate Valid()
      reads this, waiting
    {
      && Distinct(waiting) && Linked(waiting) && (waiting != [] ==> locked)
      && head == (if waiting == [] then null else waiting[0])
      && tail == (if waiting == [] then null else waiting[|waiting|-1])
    }

    /** The lock as the step system has it, with its spin lock given up. */
    ghost function View(): QLocks.QLock
      reads this
    {
      QLocks.QLock(None, locked, Ids(waiting), asked, given)
    }

    constructor ()
      ensures Valid() && View() == QLocks.Free()
    {
      locked, head, tail, waiting, asked, given := false, null, null, [], [], [];
    }

    /** Takes the lock, or goes to the end of the list, where up then has to wait. */
    method qlock(up: Proc) returns (wait: bool)
      requires Valid() && up !in waiting
      modifies this, up, waiting
      ensures Valid() && wait == old(locked) && waiting == (if wait then old(waiting) + [up] else old(waiting))
      ensures View() == QLocks.Join(old(View()), up.id)
    {
      if !locked {
        locked := true;
        return false;
      }
      IdsJoin(waiting, [up]);
      assert Ids([up]) == [up.id];
      ghost var was := waiting;
      var p := tail;
      if p == null {
        head := up;
      } else {
        p.qnext := up;
      }
      tail := up;
      up.qnext := null;
      waiting, asked := waiting + [up], asked + [up.id];
      forall i | 0 <= i < |waiting| ensures waiting[i].qnext == Following(waiting, i) {
        if i < |was| - 1 {
          assert waiting[i] == was[i] != was[|was|-1] && was[i] != up && Following(waiting, i) == Following(was, i);
        }
      }
      wait := true;
    }

    /** Takes the lock if it is free. */
    method canqlock() returns (got: bool)
      requires Valid()
      modifies this
      ensures Valid() && got == !old(locked) && locked && waiting == old(waiting)
      ensures View() == old(View()).(locked := true)
    {
      if locked {
        return false;
      }
      locked := true;
      got := true;
    }

    /** Hands the lock to the first process on the list, which has to be woken, or frees it. */
    method qunlock() returns (p: Proc?)
      requires Valid()
      modifies this
      ensures Valid() && p == (if old(waiting) == [] then null else old(waiting[0]))
      ensures waiting == if p == null then [] else old(waiting[1..])
      ensures View() == QLocks.Drop(old(View()))
    {
      p := head;
      if p != null {
        ghost var was := waiting;
        assert was == [p] + was[1..];
        assert was[0].qnext == Following(was, 0);
        head := p.qnext;
        if head == null {
          tail := null;
        }
        waiting, given := waiting[1..], given + [p.id];
        assert forall i :: 0 <= i < |waiting| ==> waiting[i] == was[i+1] && Following(waiting, i) == Following(was, i + 1);
        assert Ids(was)[1..] == Ids(waiting);
        return;
      }
      locked := false;
    }
  }
}
