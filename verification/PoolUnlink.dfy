/** What pooldel does to the pointers of the tree (9/alloc.c). */
module PoolUnlink {
  import opened PoolTree
  import opened PoolDelete

  function SetLeft(m: Memory, a: nat, v: nat): (r: Memory)
    requires a < |m|
    ensures |r| == |m|
  {
    m[a := m[a].(left := v)]
  }

  function SetRight(m: Memory, a: nat, v: nat): (r: Memory)
    requires a < |m|
    ensures |r| == |m|
  {
    m[a := m[a].(right := v)]
  }

  function SetFwd(m: Memory, a: nat, v: nat): (r: Memory)
    requires a < |m|
    ensures |r| == |m|
  {
    m[a := m[a].(fwd := v)]
  }

  function SetPrev(m: Memory, a: nat, v: nat): (r: Memory)
    requires a < |m|
    ensures |r| == |m|
  {
    m[a := m[a].(prev := v)]
  }

  // ---------------------------------------------------------------- in a ring

  /** Member j of a ring after member i was taken out. */
  ghost predicate GoneAt(m: Memory, m': Memory, ring: seq<nat>, i: nat, j: nat)
    requires i < |ring| && j < |ring|
  {
    var a, x := ring[i], ring[j];
    && a < |m| && x < |m| && x < |m'| && m'[x].size == m[x].size
    && m'[x].fwd == (if m[x].fwd == a then m[a].fwd else m[x].fwd)
    && m'[x].prev == (if m[x].prev == a then m[a].prev else m[x].prev)
    && (j > 1 || (j > 0 && i > 0) ==> m'[x].parent == m[x].parent)
  }

  /** The ring closes up. */
  lemma RingGone(m: Memory, m': Memory, s: nat, ring: seq<nat>, i: nat)
    requires Ring(m, s, ring) && NoDup(ring) && |ring| > 1 && i < |ring|
    requires forall j :: 0 <= j < |ring| && j != i ==> GoneAt(m, m', ring, i, j)
    ensures Ring(m', s, Without(ring, i)) && Member(m', s, Without(ring, i), 0)
  {
    var r, n := Without(ring, i), |ring|;
    forall k | 0 <= k < |r| ensures Member(m', s, r, k) {
      var j := if k < i then k else k + 1;
      assert r[k] == ring[j];
      assert GoneAt(m, m', ring, i, j);
      assert Member(m, s, ring, j) && Member(m, s, ring, i);
      assert Follows(ring, r, i, j, k);
    }
  }

  /** Where the neighbours of a member that stays are to be found. */
  ghost predicate Follows(ring: seq<nat>, r: seq<nat>, i: nat, j: nat, k: nat)
    requires |ring| == |r| + 1 && |r| > 0 && i < |ring| && j < |ring| && k < |r|
  {
    var n := |ring|;
    && r[Next(k, n - 1)] == (if Next(j, n) == i then ring[Next(i, n)] else ring[Next(j, n)])
    && r[Prev(k, n - 1)] == (if Prev(j, n) == i then ring[Prev(i, n)] else ring[Prev(j, n)])
    && (ring[Next(j, n)] == ring[i] <==> Next(j, n) == i) && (ring[Prev(j, n)] == ring[i] <==> Prev(j, n) == i)
  }

  /** The neighbours of a point to each other. */
  function Unlinked(m: Memory, a: nat): (r: Memory)
    requires a < |m| && m[a].prev < |m| && m[a].fwd < |m|
    ensures |r| == |m|
  {
    SetPrev(SetFwd(m, m[a].prev, m[a].fwd), m[a].fwd, m[a].prev)
  }

  lemma UnlinkedRing(m: Memory, s: nat, ring: seq<nat>, i: nat)
    requires Ring(m, s, ring) && NoDup(ring) && |ring| > 1 && i < |ring|
    ensures var a := ring[i]; a < |m| && m[a].prev < |m| && m[a].fwd < |m| && m[a].prev in ring && m[a].fwd in ring
    ensures forall j :: 0 <= j < |ring| && j != i ==> GoneAt(m, Unlinked(m, ring[i]), ring, i, j)
  {
    var n := |ring|;
    assert Member(m, s, ring, i) && Member(m, s, ring, Prev(i, n)) && Member(m, s, ring, Next(i, n));
    forall j | 0 <= j < |ring| && j != i ensures GoneAt(m, Unlinked(m, ring[i]), ring, i, j) {
      assert Member(m, s, ring, j);
    }
  }

  /** Only the neighbours of a change, and only in how they are linked. */
  lemma UnlinkedElsewhere(m: Memory, a: nat, x: nat)
    requires a < |m| && m[a].prev < |m| && m[a].fwd < |m| && x < |m|
    ensures var h, h' := m[x], Unlinked(m, a)[x]; h' == h.(fwd := h'.fwd, prev := h'.prev)
    ensures x != m[a].prev && x != m[a].fwd ==> Unlinked(m, a)[x] == m[x]
  {
  }

  // ---------------------------------------------------- a member, not the head

  /** A ring's head is known by its parent, but for the root. */
  lemma HeadTest(m: Memory, p: nat, t: Tree, a: nat)
    requires Rep(m, p, 0, t) && Apart(t) && a in Addrs(t)
    ensures a < |m| && (m[a].parent == 0 && p != a <==> !IsHead(t, a))
  {
    Bounds(m, p, 0, t);
    if IsHead(t, a) {
      HeadRep(m, p, 0, t, a);
    } else {
      var h := HeadOf(t, a);
      HeadRep(m, p, 0, t, h);
      assert Member(m, Sub(t, h).size, Sub(t, h).ring, Index(Sub(t, h).ring, a));
    }
  }

  /** The subtree of a ring that lost a member. */
  lemma ShrunkRing(m: Memory, h: nat, q: nat, u: Tree, a: nat)
    requires Rep(m, h, q, u) && Apart(u) && u.Node? && a in u.ring && a != h
    ensures a < |m| && m[a].prev < |m| && m[a].fwd < |m| && m[a].prev in u.ring && m[a].fwd in u.ring
    ensures Rep(Unlinked(m, a), h, q, Shrunk(u, a))
  {
    var i := Index(u.ring, a);
    UnlinkedRing(m, u.size, u.ring, i);
    var m' := Unlinked(m, a);
    RingGone(m, m', u.size, u.ring, i);
    Bounds(m, h, q, u);
    UnlinkedElsewhere(m, a, h);
    forall x | x in Addrs(u.l) || x in Addrs(u.r) ensures x < |m| && m'[x] == m[x] {
      assert m[a].prev in Elems(u.ring) && m[a].fwd in Elems(u.ring);
      UnlinkedElsewhere(m, a, x);
    }
    Frame(m, m', m[h].left, h, u.l);
    Frame(m, m', m[h].right, h, u.r);
  }

  /** pooldel of a block that is in a ring but not its head. */
  lemma MemberGone(m: Memory, p: nat, t: Tree, a: nat)
    requires Rep(m, p, 0, t) && Apart(t) && a in Addrs(t) && !IsHead(t, a)
    ensures a < |m| && m[a].prev < |m| && m[a].fwd < |m| && m[a].prev in Addrs(t) && m[a].fwd in Addrs(t)
    ensures Rep(Unlinked(m, a), p, 0, Del(t, a))
  {
    hide Shrunk, Rep;
    var h := HeadOf(t, a);
    var u := Sub(t, h);
    HeadIn(t, h);
    HeadRep(m, p, 0, t, h);
    ShrunkRing(m, h, m[h].parent, u, a);
    var m' := Unlinked(m, a);
    Bounds(m, p, 0, t);
    assert m[a].prev in Elems(u.ring) && m[a].fwd in Elems(u.ring);
    forall x | x in Addrs(t) && x !in Addrs(u) && x < |m|
      ensures m'[x] == if x == m[h].parent then Relinked(m[x], h, h) else m[x]
    {
      UnlinkedElsewhere(m, a, x);
    }
    Replace(m, m', p, 0, t, h, h, Shrunk(u, a));
  }

  // --------------------------------------------- the head of a ring of several

  /** The link of q to a becomes one to b; there is none to change above the root. */
  function Link(m: Memory, q: nat, a: nat, b: nat): (r: Memory)
    ensures |r| == |m|
  {
    if 0 < q < |m| then m[q := Relinked(m[q], a, b)] else m
  }

  /** f takes the place of t in the tree. */
  function Promoted(m: Memory, t: nat, f: nat): (r: Memory)
    requires t < |m| && f < |m|
    ensures |r| == |m|
  {
    var h := m[t];
    var m2 := Link(SetParent(m, f, h.parent), h.parent, t, f);
    var m3 := SetParent(SetLeft(m2, f, h.left), h.left, f);
    SetParent(SetRight(m3, f, h.right), h.right, f)
  }

  /** The five headers that are in play. */
  ghost predicate Distinct(m: Memory, t: nat, f: nat)
    requires t < |m|
  {
    var q, l, r := m[t].parent, m[t].left, m[t].right;
    && 0 < f < |m| && f != t && f != q && f != l && f != r && t != q && t != l && t != r
    && (l != 0 ==> l < |m| && l != r && l != q) && (r != 0 ==> r < |m| && r != q)
  }

  lemma PromotedAt(m: Memory, t: nat, f: nat, x: nat)
    requires t < |m| && x < |m| && Distinct(m, t, f)
    ensures var h, m' := m[t], Promoted(m, t, f);
      m'[x] == if x == f then m[f].(parent := h.parent, left := h.left, right := h.right)
               else if x == 0 then m[x]
               else if x == h.parent then Relinked(m[x], t, f)
               else if x == h.left || x == h.right then m[x].(parent := f)
               else m[x]
  {
  }

  lemma ChildOf(m: Memory, p: nat, par: nat, t: Tree)
    requires Rep(m, p, par, t) && Apart(t) && t.Node?
    ensures t.l.Leaf? <==> m[p].left == 0
    ensures t.r.Leaf? <==> m[p].right == 0
    ensures m[p].left != 0 ==> m[p].left in Addrs(t.l)
    ensures m[p].right != 0 ==> m[p].right in Addrs(t.r)
  {
    Bounds(m, m[p].left, p, t.l);
    Bounds(m, m[p].right, p, t.r);
  }

  lemma Neighbours(m: Memory, t: nat, q: nat, u: Tree, f: nat)
    requires Rep(m, t, q, u) && Apart(u) && u.Node? && q !in Addrs(u)
    requires f in u.ring && f != t
    ensures t < |m| && Distinct(m, t, f)
  {
    Bounds(m, t, q, u);
    ChildOf(m, t, q, u);
    assert f in Elems(u.ring) && t in Elems(u.ring);
  }

  /** A subtree under a new head f. */
  lemma SideMoved(m: Memory, m': Memory, p: nat, t: nat, f: nat, l: Tree)
    requires Rep(m, p, t, l) && Apart(l) && |m'| == |m|
    requires forall x :: x in Addrs(l) && x < |m| ==> m'[x] == if x == p then m[x].(parent := f) else m[x]
    ensures Rep(m', p, f, l)
  {
    Bounds(m, p, t, l);
    Reparent(m, p, t, f, l);
    Frame(SetParent(m, p, f), m', p, f, l);
  }

  /** The ring and the subtree of t, with f at their head. */
  lemma PromotedRep(m: Memory, t: nat, q: nat, u: Tree)
    requires Rep(m, t, q, u) && Apart(u) && u.Node? && |u.ring| > 1 && q !in Addrs(u)
    ensures var f := u.ring[1]; t < |m| && Distinct(m, t, f) && m[t].fwd == f && m[t].prev < |m| && m[t].prev in u.ring
    ensures var f := u.ring[1]; var m1 := Promoted(m, t, f);
      m1[t] == m[t] && Rep(Unlinked(m1, t), f, q, Shrunk(u, t))
  {
    var f := u.ring[1];
    assert Member(m, u.size, u.ring, 0);
    assert u.ring[1] in u.ring && u.ring[0] != u.ring[1];
    Neighbours(m, t, q, u, f);
    UnlinkedRing(m, u.size, u.ring, 0);
    var m1 := Promoted(m, t, f);
    PromotedAt(m, t, f, t);
    var m' := Unlinked(m1, t);
    hide Promoted, Unlinked, Rep, Apart, Addrs, Distinct;
    PromotedRing(m, m1, m', t, q, u);
    PromotedSides(m, m1, m', t, q, u);
    IndexHead(u, t);
    Assembled(m', f, q, Shrunk(u, t));
  }

  lemma IndexHead(u: Tree, t: nat)
    requires u.Node? && Apart(u) && |u.ring| > 1 && t == u.ring[0]
    ensures Shrunk(u, t) == u.(ring := Without(u.ring, 0)) && Without(u.ring, 0)[0] == u.ring[1]
  {
  }

  lemma Assembled(m: Memory, p: nat, q: nat, u: Tree)
    requires u.Node? && |u.ring| > 0 && p == u.ring[0] && Ring(m, u.size, u.ring) && Member(m, u.size, u.ring, 0) && m[p].parent == q
    requires Rep(m, m[p].left, p, u.l) && Rep(m, m[p].right, p, u.r)
    ensures Rep(m, p, q, u)
  {
  }

  lemma PromotedRing(m: Memory, m1: Memory, m': Memory, t: nat, q: nat, u: Tree)
    requires Rep(m, t, q, u) && Apart(u) && u.Node? && |u.ring| > 1 && q !in Addrs(u)
    requires t < |m| && var f := u.ring[1]; Distinct(m, t, f) && m1 == Promoted(m, t, f) && m1[t] == m[t]
    requires m[t].prev < |m| && m[t].fwd < |m| && m' == Unlinked(m1, t)
    ensures var f := u.ring[1]; Ring(m', u.size, Without(u.ring, 0)) && Member(m', u.size, Without(u.ring, 0), 0)
    ensures var f := u.ring[1]; m'[f].parent == q && m'[f].left == m[t].left && m'[f].right == m[t].right
  {
    var ring, f := u.ring, u.ring[1];
    UnlinkedRing(m, u.size, ring, 0);
    ChildOf(m, t, q, u);
    Bounds(m, t, q, u);
    forall j | 0 <= j < |ring| && j != 0 ensures GoneAt(m, m', ring, 0, j) {
      assert GoneAt(m, Unlinked(m, t), ring, 0, j);
      assert ring[j] in Elems(ring);
      hide Promoted;
      PromotedAt(m, t, f, ring[j]);
      UnlinkedSame(m, m1, t, ring[j]);
    }
    hide Promoted;
    RingGone(m, m', u.size, ring, 0);
    PromotedAt(m, t, f, f);
    UnlinkedElsewhere(m1, t, f);
  }

  /** Taking a out changes the links of x alike in both memories. */
  lemma UnlinkedSame(m: Memory, m1: Memory, a: nat, x: nat)
    requires a < |m| == |m1| && m1[a] == m[a] && m[a].prev < |m| && m[a].fwd < |m| && x < |m|
    requires m1[x].fwd == m[x].fwd && m1[x].prev == m[x].prev
    ensures Unlinked(m1, a)[x].fwd == Unlinked(m, a)[x].fwd && Unlinked(m1, a)[x].prev == Unlinked(m, a)[x].prev
    ensures Unlinked(m1, a)[x].size == m1[x].size && Unlinked(m1, a)[x].parent == m1[x].parent
  {
  }

  lemma PromotedSides(m: Memory, m1: Memory, m': Memory, t: nat, q: nat, u: Tree)
    requires Rep(m, t, q, u) && Apart(u) && u.Node? && |u.ring| > 1 && q !in Addrs(u)
    requires t < |m| && var f := u.ring[1]; Distinct(m, t, f) && m1 == Promoted(m, t, f) && m1[t] == m[t]
    requires m[t].prev < |m| && m[t].fwd < |m| && m' == Unlinked(m1, t)
    ensures var f := u.ring[1]; Rep(m', m[t].left, f, u.l) && Rep(m', m[t].right, f, u.r)
  {
    var f := u.ring[1];
    UnlinkedRing(m, u.size, u.ring, 0);
    ChildOf(m, t, q, u);
    Bounds(m, t, q, u);
    assert f in Elems(u.ring) && m[t].prev in Elems(u.ring) && m[t].fwd in Elems(u.ring);
    hide Promoted, Unlinked;
    forall x | (x in Addrs(u.l) || x in Addrs(u.r)) && x < |m|
      ensures m'[x] == if x == m[t].left || x == m[t].right then m[x].(parent := f) else m[x]
    {
      PromotedAt(m, t, f, x);
      UnlinkedElsewhere(m1, t, x);
    }
    SideMoved(m, m', m[t].left, t, f, u.l);
    SideMoved(m, m', m[t].right, t, f, u.r);
  }

  /** pooldel of the head of a ring that has other members. */
  lemma HeadGone(m: Memory, p: nat, t: Tree, a: nat)
    requires Rep(m, p, 0, t) && Apart(t) && IsHead(t, a) && |Sub(t, a).ring| > 1
    ensures 0 < a < |m| && var f := m[a].fwd; f < |m| && f != a && f in Addrs(t) && m[a].prev in Addrs(t)
    ensures a in Addrs(t) && var f := m[a].fwd; var m1 := Promoted(m, a, f);
      && m1[a] == m[a] && m[a].prev < |m|
      && Rep(Unlinked(m1, a), if m[a].parent == 0 then f else p, 0, Del(t, a))
  {
    HeadIn(t, a);
    HeadRep(m, p, 0, t, a);
    var u, q, f := Sub(t, a), m[a].parent, m[a].fwd;
    Bounds(m, p, 0, t);
    PromotedRep(m, a, q, u);
    OneHead(t, a);
    var m1 := Promoted(m, a, f);
    var m' := Unlinked(m1, a);
    Bounds(m, a, q, u);
    ChildOf(m, a, q, u);
    assert f in Elems(u.ring) && m[a].prev in Elems(u.ring);
    hide Promoted, Unlinked, Rep, Apart;
    forall x | x in Addrs(t) && x !in Addrs(u) && x < |m|
      ensures m'[x] == if x == q then Relinked(m[x], a, f) else m[x]
    {
      PromotedAt(m, a, f, x);
      UnlinkedElsewhere(m1, a, x);
    }
    Replace(m, m', p, 0, t, a, f, Shrunk(u, a));
    HeadTest(m, p, t, a);
  }

  lemma OneHead(t: Tree, a: nat)
    requires Apart(t) && IsHead(t, a)
    ensures a in Addrs(t) && HeadOf(t, a) == a && Apart(Sub(t, a))
    ensures Del(t, a) == Subst(t, a, Shrunk(Sub(t, a), a))
  {
    HeadIn(t, a);
    HeadUnique(t, a, HeadOf(t, a));
  }

  /** A head is in no other ring. */
  lemma {:induction false} HeadUnique(t: Tree, a: nat, h: nat)
    requires Apart(t) && IsHead(t, a) && IsHead(t, h) && a in Sub(t, h).ring
    ensures a == h
    decreases t
  {
    HeadIn(t, a);
    HeadIn(t, h);
    assert a in Elems(Sub(t, h).ring) && t.ring[0] in Elems(t.ring);
    if h != t.ring[0] {
      if IsHead(t.l, h) {
        HeadIn(t.l, h);
        if IsHead(t.l, a) { HeadUnique(t.l, a, h); } else if IsHead(t.r, a) { HeadIn(t.r, a); }
      } else {
        HeadIn(t.r, h);
        if IsHead(t.l, a) { HeadIn(t.l, a); } else if IsHead(t.r, a) { HeadUnique(t.r, a, h); }
      }
    } else if IsHead(t.l, a) {
      HeadIn(t.l, a);
    } else if IsHead(t.r, a) {
      HeadIn(t.r, a);
    }
  }

  // -------------------------------------------------- the only one of its size

  /** What is at rp takes the place of a in the tree. */
  function Attached(m: Memory, a: nat, rp: nat): (r: Memory)
    requires a < |m|
    ensures |r| == |m|
  {
    SetParent(Link(m, m[a].parent, a, rp), rp, m[a].parent)
  }

  /** pooldel of a block that is alone in its ring, once mj holds at rp what was below it. */
  lemma LoneGone(m: Memory, p: nat, t: Tree, a: nat, mj: Memory, rp: nat, par: nat)
    requires Rep(m, p, 0, t) && Apart(t) && Ordered(t) && IsHead(t, a) && |Sub(t, a).ring| == 1 && |mj| == |m|
    requires forall x :: 0 <= x < |m| && x !in Addrs(Sub(t, a)) ==> mj[x] == m[x]
    requires 0 < a < |m| && mj[a].parent == m[a].parent
    requires var u := Sub(t, a); Apart(u.l) && Apart(u.r) && Rep(mj, rp, par, Join(u.l, u.r))
    ensures a in Addrs(t) && Rep(Attached(mj, a, rp), if m[a].parent == 0 then rp else p, 0, Del(t, a))
  {
    var u, q := Sub(t, a), m[a].parent;
    HeadIn(t, a);
    HeadRep(m, p, 0, t, a);
    HeadTest(m, p, t, a);
    SubOrdered(t, a);
    var j := Join(u.l, u.r);
    JoinAddrs(u.l, u.r);
    OneHead(t, a);
    Bounds(m, p, 0, t);
    hide Addrs, Apart, Rep, Join, Del, IsHead, Sub;
    AttachedRep(mj, a, rp, par, j, Addrs(u));
    hide Attached;
    Replace(m, Attached(mj, a, rp), p, 0, t, a, rp, j);
  }

  lemma AttachedRep(m: Memory, a: nat, rp: nat, par: nat, j: Tree, inside: set<nat>)
    requires a < |m| && Rep(m, rp, par, j) && Apart(j) && Addrs(j) <= inside && m[a].parent !in inside
    ensures var q, m' := m[a].parent, Attached(m, a, rp); Rep(m', rp, q, j)
    ensures var q, m' := m[a].parent, Attached(m, a, rp);
      forall x :: 0 < x < |m| && x !in inside ==> m'[x] == if x == q then Relinked(m[x], a, rp) else m[x]
  {
    var q := m[a].parent;
    Bounds(m, rp, par, j);
    Reparent(m, rp, par, q, j);
    Frame(SetParent(m, rp, q), Attached(m, a, rp), rp, q, j);
  }

  // ------------------------------------------------- two subtrees to be joined

  lemma {:induction false} HeadBelow(t: Tree, a: nat, x: nat)
    requires Apart(t) && IsHead(t, a) && IsHead(Sub(t, a), x)
    ensures IsHead(t, x) && Sub(t, x) == Sub(Sub(t, a), x)
    decreases t
  {
    HeadIn(t, a);
    HeadIn(Sub(t, a), x);
    assert t.ring[0] in Elems(t.ring);
    if a != t.ring[0] {
      if IsHead(t.l, a) {
        HeadIn(t.l, a);
        HeadBelow(t.l, a, x);
      } else {
        HeadIn(t.r, a);
        HeadBelow(t.r, a, x);
        if IsHead(t.l, x) { HeadIn(t.l, x); }
      }
    }
  }

  /** Down the left side of r to rp, which is on f's left, unless it is the top of r. */
  ghost predicate OnLeft(m: Memory, t: nat, r: Tree, f: nat, rp: nat)
  {
    && t < |m| && t !in Addrs(r) && Apart(r) && r.Node? && IsHead(r, rp) && rp < |m| && m[rp].parent == f
    && MinHead(r) == MinHead(Below(r, rp))
    && (if rp == m[t].right then f == t else f in Addrs(r) && f !in Addrs(Sub(r, rp)) && f < |m| && m[f].left == rp)
  }

  ghost function Below(r: Tree, rp: nat): (u: Tree)
    requires Apart(r) && IsHead(r, rp)
    ensures u == Sub(r, rp) && Apart(u) && u.Node?
  {
    HeadIn(r, rp);
    Sub(r, rp)
  }

  lemma LeftFirst(m: Memory, t: nat, r: Tree)
    requires t < |m| && Rep(m, m[t].right, t, r) && Apart(r) && r.Node? && t !in Addrs(r)
    ensures OnLeft(m, t, r, t, m[t].right)
  {
    Bounds(m, m[t].right, t, r);
  }

  lemma LeftTree(r: Tree, rp: nat)
    requires Apart(r) && IsHead(r, rp)
    ensures Sub(r, rp).l.Leaf? ==> MinHead(Below(r, rp)) == rp
    ensures Sub(r, rp).l.Node? ==> |Sub(r, rp).l.ring| > 0 && var s := Sub(r, rp).l.ring[0];
      && IsHead(r, s) && Sub(r, s) == Sub(r, rp).l && MinHead(Below(r, s)) == MinHead(Below(r, rp))
      && rp !in Addrs(Sub(r, s)) && Addrs(Sub(r, s)) < Addrs(Sub(r, rp))
  {
    HeadIn(r, rp);
    var u := Sub(r, rp);
    assert rp in Elems(u.ring);
    if u.l.Node? {
      var s := u.l.ring[0];
      assert s in Elems(u.l.ring);
      assert IsHead(u.l, s) && Sub(u, s) == u.l;
      HeadBelow(r, rp, s);
    }
  }

  lemma LeftNext(m: Memory, t: nat, r: Tree, f: nat, rp: nat)
    requires t < |m| && Rep(m, m[t].right, t, r) && OnLeft(m, t, r, f, rp)
    ensures m[rp].left == 0 ==> MinHead(r) == rp && Sub(r, rp).l.Leaf?
    ensures m[rp].left != 0 ==> OnLeft(m, t, r, rp, m[rp].left) && Addrs(Sub(r, m[rp].left)) < Addrs(Sub(r, rp))
  {
    HeadIn(r, rp);
    HeadRep(m, m[t].right, t, r, rp);
    LeftTree(r, rp);
    LeftChild(m, rp, f, Sub(r, rp));
    Bounds(m, m[t].right, t, r);
    hide Sub, IsHead, Addrs, Apart, MinHead;
    if m[rp].left != 0 {
      TopParent(m, m[t].right, t, r);
    }
  }

  lemma TopParent(m: Memory, p: nat, t: nat, r: Tree)
    requires Rep(m, p, t, r) && r.Node? && p < |m|
    ensures m[p].parent == t
  {
  }

  lemma LeftChild(m: Memory, p: nat, par: nat, u: Tree)
    requires Rep(m, p, par, u) && Apart(u) && u.Node? && p < |m|
    ensures m[p].left == 0 <==> u.l.Leaf?
    ensures m[p].left != 0 ==> |u.l.ring| > 0 && u.l.ring[0] == m[p].left < |m| && m[m[p].left].parent == p
    ensures p in Addrs(u)
  {
    ChildOf(m, p, par, u);
    assert p in Elems(u.ring);
    if u.l.Node? { assert Member(m, u.l.size, u.l.ring, 0); }
  }

  /** f gives up rp, the smallest above t, for what is to the right of rp. */
  function Pulled(m: Memory, f: nat, rp: nat): (r: Memory)
    requires f < |m| && rp < |m|
    ensures |r| == |m|
  {
    SetParent(SetLeft(m, f, m[rp].right), m[rp].right, f)
  }

  lemma PulledRep(m: Memory, t: nat, r: Tree, f: nat, rp: nat)
    requires t < |m| && Rep(m, m[t].right, t, r) && OnLeft(m, t, r, f, rp) && f != t && Sub(r, rp).l.Leaf?
    ensures f < |m| && Rep(Pulled(m, f, rp), m[t].right, t, Subst(r, rp, Sub(r, rp).r))
    ensures forall x :: 0 <= x < |m| && (x !in Addrs(r) || x in Elems(Sub(r, rp).ring)) ==> Pulled(m, f, rp)[x] == m[x]
    ensures Apart(Subst(r, rp, Sub(r, rp).r)) && Addrs(Subst(r, rp, Sub(r, rp).r)) == Addrs(r) - Elems(Sub(r, rp).ring)
  {
    var n, x0 := Sub(r, rp), m[t].right;
    HeadIn(r, rp);
    HeadRep(m, x0, t, r, rp);
    var s, m1 := m[rp].right, Pulled(m, f, rp);
    Bounds(m, x0, t, r);
    Bounds(m, s, rp, n.r);
    assert Addrs(n) == Elems(n.ring) + Addrs(n.r);
    Reparent(m, s, rp, f, n.r);
    Frame(SetParent(m, s, f), m1, s, f, n.r);
    Replace(m, m1, x0, t, r, rp, s, n.r);
    SubstFewer(r, rp, n.r);
  }

  /** rp above the two subtrees of t. */
  function Topped(m: Memory, t: nat, rp: nat, far: bool): (r: Memory)
    requires t < |m| && rp < |m|
    ensures |r| == |m|
  {
    var m1 := if far then SetParent(SetRight(m, rp, m[t].right), m[t].right, rp) else m;
    SetParent(SetLeft(m1, rp, m1[t].left), m1[t].left, rp)
  }

  lemma ToppedAt(m: Memory, t: nat, rp: nat, far: bool, x: nat)
    requires t < |m| && 0 < rp < |m| && x < |m| && rp != t && m[t].left != rp && m[t].left != t && m[t].right != t
    requires m[t].left != m[t].right && (far ==> m[t].right != rp)
    ensures Topped(m, t, rp, far)[x] ==
      if x == rp then m[x].(left := m[t].left, right := if far then m[t].right else m[x].right)
      else if 0 < x == m[t].left || (far && 0 < x == m[t].right) then m[x].(parent := rp)
      else m[x]
  {
  }

  /** The ring of n above the subtrees l and rest. */
  lemma ToppedRep(m: Memory, t: nat, l: Tree, n: Tree, rest: Tree, rp: nat, far: bool, rt: nat, par: nat)
    requires t < |m| && Rep(m, m[t].left, t, l) && Apart(l) && l.Node? && t !in Addrs(l)
    requires n.Node? && |n.ring| > 0 && rp == n.ring[0] && NoDup(n.ring) && Ring(m, n.size, n.ring) && Member(m, n.size, n.ring, 0)
    requires t !in n.ring && m[rp].parent == par
    requires Apart(rest) && Rep(m, rt, if far then t else rp, rest) && rt == (if far then m[t].right else m[rp].right) && t !in Addrs(rest)
    requires Addrs(l) !! Elems(n.ring) && Addrs(rest) !! Elems(n.ring) && Addrs(l) !! Addrs(rest)
    requires m[t].right != 0 && m[t].right !in Addrs(l) && m[t].right != t
    ensures Rep(Topped(m, t, rp, far), rp, par, Node(l, n.size, n.ring, rest))
    ensures forall x :: 0 <= x < |m| && x !in Addrs(l) && x !in Elems(n.ring) && x !in Addrs(rest) ==> Topped(m, t, rp, far)[x] == m[x]
  {
    var m', lt := Topped(m, t, rp, far), m[t].left;
    Bounds(m, lt, t, l);
    Bounds(m, rt, if far then t else rp, rest);
    assert rp in Elems(n.ring);
    assert Member(m, n.size, n.ring, 0);
    hide Topped;
    forall x | 0 <= x < |m|
      ensures m'[x] == if x == rp then m[x].(left := lt, right := if far then m[t].right else m[x].right)
        else if 0 < x == lt || (far && 0 < x == m[t].right) then m[x].(parent := rp) else m[x]
    {
      ToppedAt(m, t, rp, far, x);
    }
    forall x | x in n.ring && x != rp && x < |m| ensures m'[x] == m[x] {
      assert x in Elems(n.ring);
    }
    HeadRing(m, m', n.size, n.ring);
    SideMoved(m, m', lt, t, rp, l);
    if far {
      SideMoved(m, m', rt, t, rp, rest);
    } else {
      Frame(m, m', rt, rp, rest);
    }
  }

  /** Both subtrees of t are below rp, the smallest above t. */
  function Joined(m: Memory, t: nat, f: nat, rp: nat): (r: Memory)
    requires t < |m| && f < |m| && rp < |m|
    ensures |r| == |m|
  {
    Topped(if f != t then Pulled(m, f, rp) else m, t, rp, f != t)
  }

  lemma JoinedRep(m: Memory, t: nat, q: nat, u: Tree, f: nat, rp: nat)
    requires Rep(m, t, q, u) && Apart(u) && Ordered(u) && u.Node? && u.l.Node? && u.r.Node?
    requires t < |m| && OnLeft(m, t, u.r, f, rp) && m[rp].left == 0
    ensures f < |m| && rp < |m| && Rep(Joined(m, t, f, rp), rp, f, Join(u.l, u.r))
    ensures forall x :: 0 <= x < |m| && x !in Addrs(u.l) && x !in Addrs(u.r) ==> Joined(m, t, f, rp)[x] == m[x]
  {
    var l, r := u.l, u.r;
    LeftNext(m, t, r, f, rp);
    HeadIn(r, rp);
    var n := Sub(r, rp);
    var rest := Subst(r, rp, n.r);
    assert t in Elems(u.ring);
    Bounds(m, t, q, u);
    ChildOf(m, t, q, u);
    HeadRep(m, m[t].right, t, r, rp);
    assert Join(l, r) == Node(l, n.size, n.ring, rest);
    assert Addrs(n) == Elems(n.ring) + Addrs(n.r);
    hide Join, Addrs, Ordered, Sub, Subst, OnLeft, MinHead;
    if f != t {
      JoinedFar(m, t, l, r, f, rp);
    } else {
      JoinedNear(m, t, l, r, rp);
    }
  }

  lemma JoinedFar(m: Memory, t: nat, l: Tree, r: Tree, f: nat, rp: nat)
    requires t < |m| && Rep(m, m[t].left, t, l) && Rep(m, m[t].right, t, r) && Apart(l) && Apart(r) && l.Node? && r.Node?
    requires OnLeft(m, t, r, f, rp) && f != t && Sub(r, rp).l.Leaf? && t !in Addrs(l) && Addrs(l) !! Addrs(r)
    ensures f < |m| && Rep(Joined(m, t, f, rp), rp, f, Node(l, Sub(r, rp).size, Sub(r, rp).ring, Subst(r, rp, Sub(r, rp).r)))
    ensures forall x :: 0 <= x < |m| && x !in Addrs(l) && x !in Addrs(r) ==> Joined(m, t, f, rp)[x] == m[x]
  {
    HeadIn(r, rp);
    PulledRep(m, t, r, f, rp);
    HeadRep(m, m[t].right, t, r, rp);
    var n, m1 := Sub(r, rp), Pulled(m, f, rp);
    var rest := Subst(r, rp, n.r);
    Bounds(m, m[t].left, t, l);
    Bounds(m, m[t].right, t, r);
    assert Elems(n.ring) <= Addrs(n);
    assert rp in Elems(n.ring);
    hide Addrs, Apart, Sub, Subst, OnLeft, Pulled;
    Frame(m, m1, m[t].left, t, l);
    SameRing(m, m1, rp, f, n);
    ToppedRep(m1, t, l, n, rest, rp, true, m[t].right, f);
  }

  lemma SameRing(m: Memory, m1: Memory, p: nat, par: nat, n: Tree)
    requires Rep(m, p, par, n) && n.Node? && |m1| == |m| && forall x :: 0 <= x < |m| && x in Elems(n.ring) ==> m1[x] == m[x]
    ensures Ring(m1, n.size, n.ring) && Member(m1, n.size, n.ring, 0) && p < |m1| && m1[p].parent == par
  {
    assert p in Elems(n.ring);
    forall a | a in n.ring ensures a < |m| && m1[a] == m[a] {
      assert a in Elems(n.ring);
      var i :| 0 <= i < |n.ring| && n.ring[i] == a;
      assert Member(m, n.size, n.ring, i);
    }
    RingFrame(m, m1, n.size, n.ring);
  }

  lemma JoinedNear(m: Memory, t: nat, l: Tree, r: Tree, rp: nat)
    requires t < |m| && Rep(m, m[t].left, t, l) && Rep(m, m[t].right, t, r) && Apart(l) && Apart(r) && l.Node? && r.Node?
    requires OnLeft(m, t, r, t, rp) && Sub(r, rp).l.Leaf? && t !in Addrs(l) && Addrs(l) !! Addrs(r)
    ensures Rep(Joined(m, t, t, rp), rp, t, Node(l, Sub(r, rp).size, Sub(r, rp).ring, Subst(r, rp, Sub(r, rp).r)))
    ensures forall x :: 0 <= x < |m| && x !in Addrs(l) && x !in Addrs(r) ==> Joined(m, t, t, rp)[x] == m[x]
  {
    HeadIn(r, rp);
    HeadRep(m, m[t].right, t, r, rp);
    assert rp == m[t].right;
    assert Sub(r, rp) == r;
    Bounds(m, m[t].left, t, l);
    Bounds(m, m[t].right, t, r);
    hide Addrs, Apart, OnLeft;
    SubAddrs(r);
    ToppedRep(m, t, l, r, r.r, rp, false, m[rp].right, t);
  }

  lemma SubAddrs(r: Tree)
    requires r.Node? && Apart(r)
    ensures Apart(r.r) && NoDup(r.ring) && Addrs(r.r) <= Addrs(r) && Elems(r.ring) <= Addrs(r) && Addrs(r.r) !! Elems(r.ring)
    ensures forall x :: x in r.ring ==> x in Elems(r.ring)
  {
  }
}
