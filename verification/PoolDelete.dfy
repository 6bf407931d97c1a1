/** Taking a block out of the tree of free blocks: what pooldel makes of the tree (9/alloc.c). */
module PoolDelete {
  import opened PoolTree

  // ------------------------------------------------------------ on the tree

  /** The head of the ring a is in. */
  ghost function HeadOf(t: Tree, a: nat): (h: nat)
    requires a in Addrs(t) && Apart(t)
    ensures IsHead(t, h) && a in Sub(t, h).ring
  {
    if a in t.ring then t.ring[0]
    else if a in Addrs(t.l) then
      var h := HeadOf(t.l, a);
      HeadIn(t.l, h);
      assert h !in Elems(t.ring) && t.ring[0] in Elems(t.ring);
      h
    else
      var h := HeadOf(t.r, a);
      HeadIn(t.r, h);
      assert h !in Elems(t.ring) && t.ring[0] in Elems(t.ring);
      if IsHead(t.l, h) then HeadIn(t.l, h); assert false; h else h
  }

  ghost function Index(s: seq<nat>, a: nat): (i: nat)
    requires a in s
    ensures i < |s| && s[i] == a
  {
    if s[0] == a then 0 else 1 + Index(s[1..], a)
  }

  /** A ring without its member i. */
  function Without(s: seq<nat>, i: nat): (r: seq<nat>)
    requires i < |s|
    ensures |r| == |s| - 1
  {
    s[..i] + s[i+1..]
  }

  /** The head of the smallest ring. */
  ghost function MinHead(t: Tree): (h: nat)
    requires t.Node? && Apart(t)
    ensures IsHead(t, h)
  {
    if t.l.Leaf? then t.ring[0] else MinHead(t.l)
  }

  /** Two trees, one above the other, as one: the smallest ring of the upper comes to the top. */
  ghost function Join(l: Tree, r: Tree): Tree
    requires Apart(l) && Apart(r)
  {
    if l.Leaf? then r
    else if r.Leaf? then l
    else
      var h := MinHead(r);
      var n := Sub(r, h);
      Node(l, n.size, n.ring, Subst(r, h, n.r))
  }

  /** What is left of a ring's subtree without a. */
  ghost function Shrunk(u: Tree, a: nat): Tree
    requires u.Node? && Apart(u) && a in u.ring
  {
    if |u.ring| == 1 then Join(u.l, u.r) else u.(ring := Without(u.ring, Index(u.ring, a)))
  }

  /** The tree without a. */
  ghost function Del(t: Tree, a: nat): Tree
    requires a in Addrs(t) && Apart(t)
  {
    var h := HeadOf(t, a);
    HeadIn(t, h);
    Subst(t, h, Shrunk(Sub(t, h), a))
  }

  /** Replacing a subtree by one of fewer blocks. */
  lemma {:induction false} SubstFewer(t: Tree, h: nat, u: Tree)
    requires Apart(t) && IsHead(t, h) && Apart(u) && Addrs(u) <= Addrs(Sub(t, h))
    ensures Apart(Subst(t, h, u)) && Addrs(Subst(t, h, u)) == Addrs(t) - (Addrs(Sub(t, h)) - Addrs(u))
    decreases t
  {
    HeadIn(t, h);
    if h != t.ring[0] {
      if IsHead(t.l, h) {
        HeadIn(t.l, h);
        SubstFewer(t.l, h, u);
      } else {
        HeadIn(t.r, h);
        SubstFewer(t.r, h, u);
      }
    }
  }

  /** Replacing a subtree by one of fewer sizes. */
  lemma {:induction false} SubstOrdered(t: Tree, h: nat, u: Tree)
    requires Ordered(t) && IsHead(t, h) && Ordered(u) && Sizes(u) <= Sizes(Sub(t, h))
    ensures Ordered(Subst(t, h, u)) && Sizes(Subst(t, h, u)) <= Sizes(t)
    decreases t
  {
    if h != t.ring[0] {
      if IsHead(t.l, h) {
        SubstOrdered(t.l, h, u);
      } else {
        SubstOrdered(t.r, h, u);
      }
    }
  }

  lemma {:induction false} SubOrdered(t: Tree, h: nat)
    requires Ordered(t) && IsHead(t, h)
    ensures Ordered(Sub(t, h)) && Sizes(Sub(t, h)) <= Sizes(t)
    decreases t
  {
    if h != t.ring[0] {
      if IsHead(t.l, h) { SubOrdered(t.l, h); } else { SubOrdered(t.r, h); }
    }
  }

  /** The smallest ring has nothing to its left. */
  lemma {:induction false} MinFacts(t: Tree)
    requires t.Node? && Apart(t) && Ordered(t)
    ensures var n := Sub(t, MinHead(t)); n.l.Leaf? && n.size in Sizes(t) && forall x :: x in Sizes(t) ==> n.size <= x
    ensures var n := Sub(t, MinHead(t)); Ordered(Subst(t, MinHead(t), n.r)) && n.size !in Sizes(Subst(t, MinHead(t), n.r))
    ensures Sizes(Subst(t, MinHead(t), Sub(t, MinHead(t)).r)) <= Sizes(t)
    decreases t
  {
    var h := MinHead(t);
    HeadIn(t, h);
    if t.l.Node? {
      HeadIn(t.l, h);
      assert t.ring[0] in Elems(t.ring) && h in Addrs(t.l);
      MinFacts(t.l);
    }
  }

  lemma JoinAddrs(l: Tree, r: Tree)
    requires Apart(l) && Apart(r) && Addrs(l) !! Addrs(r) && Ordered(r)
    ensures Apart(Join(l, r)) && Addrs(Join(l, r)) == Addrs(l) + Addrs(r)
  {
    if l.Node? && r.Node? {
      var h := MinHead(r);
      var n := Sub(r, h);
      HeadIn(r, h);
      MinFacts(r);
      SubstFewer(r, h, n.r);
      hide Apart, Addrs, Ordered, Sizes, Sub, Subst, MinHead;
      JoinParts(l, n, r, Subst(r, h, n.r));
    }
  }

  lemma JoinParts(l: Tree, n: Tree, r: Tree, rest: Tree)
    requires Apart(l) && Apart(n) && Apart(rest) && n.Node? && n.l.Leaf? && Addrs(l) !! Addrs(r) && Addrs(n) <= Addrs(r)
    requires Addrs(rest) == Addrs(r) - (Addrs(n) - Addrs(n.r))
    ensures Apart(Node(l, n.size, n.ring, rest)) && Addrs(Node(l, n.size, n.ring, rest)) == Addrs(l) + Addrs(r)
  {
    assert Addrs(n) == Elems(n.ring) + Addrs(n.r);
  }

  lemma JoinOrdered(l: Tree, s: nat, r: Tree)
    requires Apart(l) && Apart(r) && Ordered(Node(l, s, [], r))
    ensures Ordered(Join(l, r)) && Sizes(Join(l, r)) <= Sizes(l) + Sizes(r)
  {
    if l.Node? && r.Node? {
      MinFacts(r);
    }
  }

  lemma WithoutFacts(s: seq<nat>, i: nat)
    requires i < |s| && NoDup(s)
    ensures NoDup(Without(s, i)) && Elems(Without(s, i)) == Elems(s) - {s[i]}
  {
    var r := Without(s, i);
    forall a | a in Elems(s) - {s[i]} ensures a in Elems(r) {
      var j :| 0 <= j < |s| && s[j] == a;
      assert r[if j < i then j else j - 1] == a;
    }
  }

  lemma ShrunkFacts(u: Tree, a: nat)
    requires u.Node? && Apart(u) && Ordered(u) && a in u.ring
    ensures var v := Shrunk(u, a); Apart(v) && Ordered(v) && Addrs(v) == Addrs(u) - {a} && Sizes(v) <= Sizes(u)
  {
    if |u.ring| == 1 {
      JoinAddrs(u.l, u.r);
      JoinOrdered(u.l, u.size, u.r);
      assert Elems(u.ring) == {a};
    } else {
      WithoutFacts(u.ring, Index(u.ring, a));
    }
  }

  /** Deletion takes out just the one block, and keeps the tree in order. */
  lemma DelFacts(t: Tree, a: nat)
    requires Apart(t) && Ordered(t) && a in Addrs(t)
    ensures Apart(Del(t, a)) && Ordered(Del(t, a)) && Addrs(Del(t, a)) == Addrs(t) - {a} && Sizes(Del(t, a)) <= Sizes(t)
  {
    var h := HeadOf(t, a);
    var u := Sub(t, h);
    HeadIn(t, h);
    SubOrdered(t, h);
    ShrunkFacts(u, a);
    InRing(u, a);
    hide Apart, Ordered, Addrs, Sizes, Sub, Subst, Shrunk, HeadOf;
    SubstFewer(t, h, Shrunk(u, a));
    SubstOrdered(t, h, Shrunk(u, a));
  }

  lemma InRing(u: Tree, a: nat)
    requires u.Node? && a in u.ring
    ensures a in Addrs(u)
  {
    assert a in Elems(u.ring);
  }

  /** There is one ring for each size. */
  lemma {:induction false} OneRingForASize(m: Memory, p: nat, par: nat, t: Tree, a: nat, b: nat)
    requires Rep(m, p, par, t) && Apart(t) && Ordered(t) && a in Addrs(t) && b in Addrs(t)
    ensures a < |m| && b < |m| && (m[a].size == m[b].size <==> HeadOf(t, a) == HeadOf(t, b))
    decreases t
  {
    Bounds(m, p, par, t);
    Bounds(m, m[p].left, p, t.l);
    Bounds(m, m[p].right, p, t.r);
    RingSize(m, t.size, t.ring);
    forall x | x in t.ring ensures x in Elems(t.ring) { }
    if a in Addrs(t.l) { HeadIn(t.l, HeadOf(t.l, a)); } else if a in Addrs(t.r) { HeadIn(t.r, HeadOf(t.r, a)); }
    if b in Addrs(t.l) { HeadIn(t.l, HeadOf(t.l, b)); } else if b in Addrs(t.r) { HeadIn(t.r, HeadOf(t.r, b)); }
    if a in Addrs(t.l) && b in Addrs(t.l) {
      OneRingForASize(m, m[p].left, p, t.l, a, b);
    } else if a in Addrs(t.r) && b in Addrs(t.r) {
      OneRingForASize(m, m[p].right, p, t.r, a, b);
    }
  }

  lemma RingSize(m: Memory, s: nat, ring: seq<nat>)
    requires Ring(m, s, ring)
    ensures forall a :: a in ring ==> a < |m| && m[a].size == s
  {
    forall a | a in ring ensures a < |m| && m[a].size == s {
      var i :| 0 <= i < |ring| && ring[i] == a;
      assert Member(m, s, ring, i);
    }
  }
}
