/** Putting a block into the tree of free blocks: what pooladd makes of the tree and its pointers (9/alloc.c). */
module PoolInsert {
  import opened PoolTree
  import opened PoolDelete
  import opened PoolUnlink

  // ------------------------------------------------------------ on the tree

  /** t with the block a of size s: at the end of a ring, or alone in a new one. */
  ghost function Ins(t: Tree, a: nat, s: nat): (u: Tree)
    ensures u.Node?
  {
    if t.Leaf? then Node(Leaf, s, [a], Leaf)
    else if s == t.size then t.(ring := t.ring + [a])
    else if s < t.size then t.(l := Ins(t.l, a, s))
    else t.(r := Ins(t.r, a, s))
  }

  lemma {:induction false} InsAddrs(t: Tree, a: nat, s: nat)
    requires Apart(t) && a !in Addrs(t)
    ensures Apart(Ins(t, a, s)) && Addrs(Ins(t, a, s)) == Addrs(t) + {a}
    decreases t
  {
    if t.Leaf? {
      assert Elems([a]) == {a};
    } else if s == t.size {
      assert a !in Elems(t.ring);
      assert Elems(t.ring + [a]) == Elems(t.ring) + {a};
    } else if s < t.size {
      InsAddrs(t.l, a, s);
    } else {
      InsAddrs(t.r, a, s);
    }
  }

  lemma {:induction false} InsOrdered(t: Tree, a: nat, s: nat)
    requires Ordered(t)
    ensures Ordered(Ins(t, a, s)) && Sizes(Ins(t, a, s)) == Sizes(t) + {s}
    decreases t
  {
    if t.Node? && s < t.size {
      InsOrdered(t.l, a, s);
    } else if t.Node? && s > t.size {
      InsOrdered(t.r, a, s);
    }
  }

  // ---------------------------------------------------------- on the pointers

  /** The new block comes last in a ring. */
  function Appended(m: Memory, h: nat, a: nat): (r: Memory)
    requires h < |m| && a < |m| && m[h].prev < |m|
    ensures |r| == |m|
  {
    var last := m[h].prev;
    SetPrev(SetFwd(SetFwd(SetPrev(m, a, last), last, a), a, h), h, a)
  }

  lemma AppendedRing(m: Memory, s: nat, ring: seq<nat>, a: nat)
    requires Ring(m, s, ring) && NoDup(ring) && |ring| > 0 && a !in ring && 0 < a < |m| && m[a].size == s && m[a].parent == 0
    requires Member(m, s, ring, 0)
    ensures ring[0] < |m| && m[ring[0]].prev < |m| && m[ring[0]].prev in ring
    ensures Ring(Appended(m, ring[0], a), s, ring + [a]) && Member(Appended(m, ring[0], a), s, ring + [a], 0)
  {
    var n, r := |ring|, ring + [a];
    assert Member(m, s, ring, n - 1);
    var m' := Appended(m, ring[0], a);
    forall k | 0 <= k < |r| ensures Member(m', s, r, k) {
      if k < n {
        assert Member(m, s, ring, k);
        assert ring[k] in ring;
      }
      assert Comes(ring, r, k);
    }
  }

  ghost predicate Comes(ring: seq<nat>, r: seq<nat>, k: nat)
    requires |r| == |ring| + 1 && k < |r| && |ring| > 0
  {
    var n := |ring|;
    && r[Next(k, n + 1)] == (if k + 1 < n then ring[Next(k, n)] else if k + 1 == n then r[n] else ring[0])
    && r[Prev(k, n + 1)] == (if k == 0 then r[n] else ring[k-1])
  }

  lemma AppendedElsewhere(m: Memory, h: nat, a: nat, x: nat)
    requires h < |m| && a < |m| && m[h].prev < |m| && x < |m|
    ensures x != h && x != a && x != m[h].prev ==> Appended(m, h, a)[x] == m[x]
    ensures var g, g' := m[x], Appended(m, h, a)[x]; g' == g.(fwd := g'.fwd, prev := g'.prev)
  {
  }

  /** The ring at h grows. */
  lemma GrownRing(m: Memory, p: nat, t: Tree, h: nat, a: nat)
    requires Rep(m, p, 0, t) && Apart(t) && IsHead(t, h) && a !in Addrs(t) && 0 < a < |m| && m[a].parent == 0
    requires m[a].size == Sub(t, h).size
    ensures h < |m| && m[h].prev < |m| && m[h].prev in Addrs(t)
    ensures var u := Sub(t, h); Rep(Appended(m, h, a), p, 0, Subst(t, h, u.(ring := u.ring + [a])))
  {
    HeadIn(t, h);
    HeadRep(m, p, 0, t, h);
    var u, q := Sub(t, h), m[h].parent;
    assert h in Elems(u.ring);
    assert a !in Elems(u.ring);
    AppendedRing(m, u.size, u.ring, a);
    assert m[h].prev in Elems(u.ring);
    var m', u' := Appended(m, h, a), u.(ring := u.ring + [a]);
    Bounds(m, p, 0, t);
    Bounds(m, h, q, u);
    hide Appended, Ring, Member, IsHead, Subst, Sub;
    forall x | 0 <= x < |m| && x !in Elems(u.ring) && x != a ensures m'[x] == m[x] {
      AppendedElsewhere(m, h, a, x);
    }
    AppendedElsewhere(m, h, a, h);
    Frame(m, m', m[h].left, h, u.l);
    Frame(m, m', m[h].right, h, u.r);
    assert Rep(m', h, q, u');
    hide Rep;
    forall x | x in Addrs(t) && x !in Addrs(u) && x < |m|
      ensures m'[x] == if x == q then Relinked(m[x], h, h) else m[x]
    {
    }
    Replace(m, m', p, 0, t, h, h, u');
  }

  /** a as a leaf under tp. */
  function Hung(m: Memory, tp: nat, a: nat, left: bool): (r: Memory)
    requires tp < |m| && a < |m|
    ensures |r| == |m|
  {
    var m1 := SetParent(m, a, tp);
    if left then SetLeft(m1, tp, a) else SetRight(m1, tp, a)
  }

  /** A block alone in its ring, with nothing below it. */
  ghost predicate Single(m: Memory, a: nat, s: nat)
  {
    && 0 < a < |m| && m[a].size == s && m[a].left == 0 && m[a].right == 0 && m[a].parent == 0
    && m[a].fwd == a && m[a].prev == a
  }

  lemma SingleRep(m: Memory, a: nat, s: nat, par: nat)
    requires 0 < a < |m| && m[a].size == s && m[a].left == 0 && m[a].right == 0 && m[a].fwd == a && m[a].prev == a && m[a].parent == par
    ensures Rep(m, a, par, Node(Leaf, s, [a], Leaf))
  {
    assert Member(m, s, [a], 0);
  }

  /** A leaf is hung up under the head tp. */
  lemma HungRep(m: Memory, p: nat, t: Tree, tp: nat, a: nat, s: nat, left: bool)
    requires Rep(m, p, 0, t) && Apart(t) && IsHead(t, tp) && a !in Addrs(t) && Single(m, a, s)
    requires if left then Sub(t, tp).l.Leaf? else Sub(t, tp).r.Leaf?
    ensures tp < |m|
    ensures var u, v := Sub(t, tp), Node(Leaf, s, [a], Leaf);
      Rep(Hung(m, tp, a, left), p, 0, Subst(t, tp, if left then u.(l := v) else u.(r := v)))
  {
    HeadIn(t, tp);
    HeadRep(m, p, 0, t, tp);
    var u, q, m' := Sub(t, tp), m[tp].parent, Hung(m, tp, a, left);
    var v := Node(Leaf, s, [a], Leaf);
    var u' := if left then u.(l := v) else u.(r := v);
    Bounds(m, p, 0, t);
    Bounds(m, tp, q, u);
    SingleRep(m', a, s, tp);
    assert tp in Elems(u.ring);
    forall x | x in u.ring && x != tp && x < |m| ensures m'[x] == m[x] {
      assert x in Elems(u.ring);
    }
    HeadRing(m, m', u.size, u.ring);
    if left { Frame(m, m', m[tp].right, tp, u.r); } else { Frame(m, m', m[tp].left, tp, u.l); }
    assert Rep(m', tp, q, u');
    Replace(m, m', p, 0, t, tp, tp, u');
  }

  /** A replacement in a part is one in the whole. */
  lemma {:induction false} SubstBelow(t: Tree, a: nat, x: nat, v: Tree)
    requires Apart(t) && IsHead(t, a) && IsHead(Sub(t, a), x)
    ensures IsHead(t, x) && Subst(t, a, Subst(Sub(t, a), x, v)) == Subst(t, x, v)
    decreases t
  {
    HeadIn(t, a);
    HeadIn(Sub(t, a), x);
    assert t.ring[0] in Elems(t.ring);
    if a != t.ring[0] {
      if IsHead(t.l, a) {
        HeadIn(t.l, a);
        SubstBelow(t.l, a, x, v);
      } else {
        HeadIn(t.r, a);
        SubstBelow(t.r, a, x, v);
        if IsHead(t.l, x) { HeadIn(t.l, x); }
      }
    }
  }

  // ------------------------------------------------------ walking down the tree

  /** The new block goes below t. */
  ghost predicate Seat(t: Tree, x: nat, a: nat, s: nat)
  {
    IsHead(t, x) && Ins(t, a, s) == Subst(t, x, Ins(Sub(t, x), a, s))
  }

  /** What is found at a head on the way down. */
  lemma Children(m: Memory, p: nat, t: Tree, x: nat)
    requires Rep(m, p, 0, t) && Apart(t) && IsHead(t, x)
    ensures 0 < x < |m| && x in Addrs(t) && var u := Sub(t, x);
      && m[x].size == u.size && (m[x].left == 0 <==> u.l.Leaf?) && (m[x].right == 0 <==> u.r.Leaf?)
      && (m[x].left != 0 ==> Lower(t, x, m[x].left) && Sub(t, m[x].left) == u.l)
      && (m[x].right != 0 ==> Lower(t, x, m[x].right) && Sub(t, m[x].right) == u.r)
  {
    HeadIn(t, x);
    HeadRep(m, p, 0, t, x);
    var u := Sub(t, x);
    ChildOf(m, x, m[x].parent, u);
    assert Member(m, u.size, u.ring, 0);
    assert x in Elems(u.ring);
    if m[x].left != 0 {
      assert IsHead(u.l, m[x].left);
      HeadBelow(t, x, m[x].left);
    }
    if m[x].right != 0 {
      var y := m[x].right;
      assert IsHead(u.r, y);
      if IsHead(u.l, y) { HeadIn(u.l, y); }
      HeadBelow(t, x, y);
    }
  }

  /** y heads a subtree of that of x. */
  ghost predicate Lower(t: Tree, x: nat, y: nat)
  {
    IsHead(t, x) && IsHead(t, y) && IsHead(Sub(t, x), y) && Addrs(Sub(t, y)) < Addrs(Sub(t, x))
  }

  lemma SeatFirst(m: Memory, p: nat, t: Tree, a: nat, s: nat)
    requires Rep(m, p, 0, t) && p != 0
    ensures Seat(t, p, a, s)
  {
  }

  lemma SeatNext(m: Memory, p: nat, t: Tree, x: nat, a: nat, s: nat)
    requires Rep(m, p, 0, t) && Apart(t) && Seat(t, x, a, s) && x < |m|
    ensures s < m[x].size && m[x].left != 0 ==> Seat(t, m[x].left, a, s)
    ensures s > m[x].size && m[x].right != 0 ==> Seat(t, m[x].right, a, s)
  {
    Children(m, p, t, x);
    HeadIn(t, x);
    var u := Sub(t, x);
    assert x in Elems(u.ring);
    if s < m[x].size && m[x].left != 0 {
      var y := m[x].left;
      HeadIn(u.l, y);
      assert Subst(u, y, Ins(u.l, a, s)) == Ins(u, a, s);
      SubstBelow(t, x, y, Ins(u.l, a, s));
    }
    if s > m[x].size && m[x].right != 0 {
      var y := m[x].right;
      HeadIn(u.r, y);
      if IsHead(u.l, y) { HeadIn(u.l, y); }
      assert Subst(u, y, Ins(u.r, a, s)) == Ins(u, a, s);
      SubstBelow(t, x, y, Ins(u.r, a, s));
    }
  }

  /** Sizes of at least size are still below x, or at least that of q, which is the best fit so far. */
  ghost predicate Fits(m: Memory, t: Tree, size: nat, u: Tree, q: nat)
  {
    && (q != 0 ==> IsHead(t, q) && q < |m| && size < m[q].size)
    && (forall y :: y in Sizes(u) && q != 0 && q < |m| ==> y < m[q].size)
    && (forall y :: y in Sizes(t) && y >= size ==> y in Sizes(u) || (q != 0 && q < |m| && m[q].size <= y))
  }

  lemma FitsNext(m: Memory, p: nat, t: Tree, size: nat, x: nat, q: nat)
    requires Rep(m, p, 0, t) && Apart(t) && Ordered(t) && IsHead(t, x) && x < |m| && Fits(m, t, size, Sub(t, x), q)
    ensures size < m[x].size ==> Fits(m, t, size, Sub(t, x).l, x)
    ensures size > m[x].size ==> Fits(m, t, size, Sub(t, x).r, q)
  {
    SubOrdered(t, x);
    Children(m, p, t, x);
  }
}
