/** The free blocks of a pool: a binary tree by size whose nodes are heads of rings (9/alloc.c). */
module PoolTree {

  datatype Magic = MAGIC_A | MAGIC_F | MAGIC_E | MAGIC_I | NOMAGIC

  /** A block header; nil is 0. The last two fields are those of the leader of an arena. */
  datatype Bhdr = Bhdr(magic: Magic, size: nat, left: nat, right: nat, fwd: nat, prev: nat, parent: nat, clink: nat, csize: nat)

  /** Headers by address. */
  type Memory = seq<Bhdr>

  /** What the pointers spell out: the blocks of each size, head first, between the smaller and the larger ones. */
  datatype Tree = Leaf | Node(l: Tree, size: nat, ring: seq<nat>, r: Tree)

  function Elems(s: seq<nat>): set<nat>
  {
    set a | a in s
  }

  function Addrs(t: Tree): set<nat>
  {
    match t
    case Leaf => {}
    case Node(l, _, ring, r) => Addrs(l) + Elems(ring) + Addrs(r)
  }

  function Sizes(t: Tree): set<nat>
  {
    match t
    case Leaf => {}
    case Node(l, s, _, r) => Sizes(l) + {s} + Sizes(r)
  }

  ghost predicate NoDup(s: seq<nat>)
  {
    forall i, j :: 0 <= i < j < |s| ==> s[i] != s[j]
  }

  /** Every block is in one place. */
  ghost predicate Apart(t: Tree)
  {
    match t
    case Leaf => true
    case Node(l, _, ring, r) =>
      && |ring| > 0 && NoDup(ring) && Apart(l) && Apart(r)
      && Addrs(l) !! Elems(ring) && Addrs(r) !! Elems(ring) && Addrs(l) !! Addrs(r)
  }

  /** Sizes are in order, with one ring for each. */
  ghost predicate Ordered(t: Tree)
  {
    match t
    case Leaf => true
    case Node(l, s, _, r) =>
      Ordered(l) && Ordered(r) && (forall x :: x in Sizes(l) ==> x < s) && (forall x :: x in Sizes(r) ==> s < x)
  }

  // ---------------------------------------------------------- in the memory

  function Next(i: nat, n: nat): nat
  {
    if i + 1 == n then 0 else i + 1
  }

  function Prev(i: nat, n: nat): nat
    requires n > 0
  {
    if i == 0 then n - 1 else i - 1
  }

  /** Member i of a ring. */
  ghost predicate Member(m: Memory, s: nat, ring: seq<nat>, i: nat)
    requires i < |ring|
  {
    var a, n := ring[i], |ring|;
    && 0 < a < |m| && m[a].size == s && m[a].fwd == ring[Next(i, n)] && m[a].prev == ring[Prev(i, n)]
    && (i > 0 ==> m[a].parent == 0)
  }

  ghost predicate Ring(m: Memory, s: nat, ring: seq<nat>)
  {
    forall i :: 0 <= i < |ring| ==> Member(m, s, ring, i)
  }

  /** The pointers from p on, whose parent is par, spell out t. */
  ghost predicate Rep(m: Memory, p: nat, par: nat, t: Tree)
    decreases t
  {
    match t
    case Leaf => p == 0
    case Node(l, s, ring, r) =>
      && |ring| > 0 && p == ring[0] && Ring(m, s, ring) && Member(m, s, ring, 0) && m[p].parent == par
      && Rep(m, m[p].left, p, l) && Rep(m, m[p].right, p, r)
  }

  lemma RingFrame(m: Memory, m': Memory, s: nat, ring: seq<nat>)
    requires Ring(m, s, ring) && forall a :: a in ring ==> a < |m| && a < |m'| && m'[a] == m[a]
    ensures Ring(m', s, ring)
  {
    forall i | 0 <= i < |ring| ensures Member(m', s, ring, i) {
      assert Member(m, s, ring, i);
    }
  }

  /** Nothing has changed in the tree. */
  lemma {:induction false} Frame(m: Memory, m': Memory, p: nat, par: nat, t: Tree)
    requires Rep(m, p, par, t)
    requires forall a :: a in Addrs(t) ==> a < |m| && a < |m'| && m'[a] == m[a]
    ensures Rep(m', p, par, t)
    decreases t
  {
    match t
    case Leaf =>
    case Node(l, s, ring, r) =>
      forall a | a in ring ensures a in Addrs(t) { assert a in Elems(ring); }
      RingFrame(m, m', s, ring);
      Frame(m, m', m[p].left, p, l);
      Frame(m, m', m[p].right, p, r);
  }

  function SetParent(m: Memory, a: nat, p: nat): Memory
  {
    if 0 < a < |m| then m[a := m[a].(parent := p)] else m
  }

  lemma HeadRing(m: Memory, m': Memory, s: nat, ring: seq<nat>)
    requires |ring| > 0 && NoDup(ring) && Ring(m, s, ring) && |m'| == |m|
    requires forall a :: a in ring && a != ring[0] && a < |m| ==> m'[a] == m[a]
    requires Member(m, s, ring, 0) && var h, h' := m[ring[0]], m'[ring[0]]; h'.size == h.size && h'.fwd == h.fwd && h'.prev == h.prev
    ensures Ring(m', s, ring) && Member(m', s, ring, 0)
  {
    forall i | 0 <= i < |ring| ensures Member(m', s, ring, i) {
      assert Member(m, s, ring, i);
      assert ring[i] in ring;
    }
  }

  /** The head is given another parent. */
  lemma Reparent(m: Memory, p: nat, par: nat, par': nat, t: Tree)
    requires Rep(m, p, par, t) && Apart(t)
    ensures Rep(SetParent(m, p, par'), p, par', t)
  {
    match t
    case Leaf =>
    case Node(l, s, ring, r) =>
      var m' := SetParent(m, p, par');
      assert p in Elems(ring);
      Bounds(m, p, par, t);
      Bounds(m, m[p].left, p, l);
      Bounds(m, m[p].right, p, r);
      HeadRing(m, m', s, ring);
      Frame(m, m', m[p].left, p, l);
      Frame(m, m', m[p].right, p, r);
  }

  /** Blocks of the tree are addresses of headers. */
  lemma {:induction false} Bounds(m: Memory, p: nat, par: nat, t: Tree)
    requires Rep(m, p, par, t)
    ensures forall a :: a in Addrs(t) ==> 0 < a < |m| && m[a].size in Sizes(t)
    ensures p == 0 <==> t.Leaf?
    ensures t.Node? ==> p in Addrs(t)
    decreases t
  {
    match t
    case Leaf =>
    case Node(l, s, ring, r) =>
      Bounds(m, m[p].left, p, l);
      Bounds(m, m[p].right, p, r);
      forall a | a in Elems(ring) ensures 0 < a < |m| && m[a].size == s {
        var i :| 0 <= i < |ring| && ring[i] == a;
        assert Member(m, s, ring, i);
      }
      assert p in Elems(ring);
  }

  // ------------------------------------------------- putting a subtree in place

  ghost predicate IsHead(t: Tree, a: nat)
  {
    t.Node? && |t.ring| > 0 && (a == t.ring[0] || IsHead(t.l, a) || IsHead(t.r, a))
  }

  /** The subtree whose top is the ring of head a. */
  ghost function Sub(t: Tree, a: nat): (u: Tree)
    requires IsHead(t, a)
    ensures u.Node? && |u.ring| > 0 && u.ring[0] == a
  {
    if a == t.ring[0] then t else if IsHead(t.l, a) then Sub(t.l, a) else Sub(t.r, a)
  }

  /** t with that subtree replaced by u. */
  ghost function Subst(t: Tree, a: nat, u: Tree): Tree
    requires IsHead(t, a)
  {
    if a == t.ring[0] then u
    else if IsHead(t.l, a) then t.(l := Subst(t.l, a, u))
    else t.(r := Subst(t.r, a, u))
  }

  lemma {:induction false} HeadIn(t: Tree, a: nat)
    requires IsHead(t, a)
    ensures a in Addrs(t) && Addrs(Sub(t, a)) <= Addrs(t) && (Apart(t) ==> Apart(Sub(t, a)))
    decreases t
  {
    if a == t.ring[0] {
      assert a in Elems(t.ring);
    } else if IsHead(t.l, a) {
      HeadIn(t.l, a);
    } else {
      HeadIn(t.r, a);
    }
  }

  /** A head has its own subtree, and its parent points to it. */
  lemma {:induction false} HeadRep(m: Memory, p: nat, par: nat, t: Tree, a: nat)
    requires Rep(m, p, par, t) && Apart(t) && IsHead(t, a)
    ensures 0 < a < |m| && Rep(m, a, m[a].parent, Sub(t, a))
    ensures a == p ==> m[a].parent == par
    ensures a != p ==> var q := m[a].parent;
      IsHead(t, q) && q in Addrs(t) && q !in Addrs(Sub(t, a)) && 0 < q < |m| && (m[q].left == a || m[q].right == a)
    decreases t
  {
    Bounds(m, p, par, t);
    if a != p {
      HeadIn(t, a);
      HeadIn(t, p);
      if IsHead(t.l, a) {
        HeadIn(t.l, a);
        HeadRep(m, m[p].left, p, t.l, a);
        assert p in Elems(t.ring);
        if a != m[p].left { HeadIn(t.l, m[a].parent); }
      } else {
        HeadIn(t.r, a);
        HeadRep(m, m[p].right, p, t.r, a);
        assert p in Elems(t.ring);
        if a != m[p].right { HeadIn(t.r, m[a].parent); }
      }
    }
  }

  /** A link to a becomes one to b. */
  function Relinked(h: Bhdr, a: nat, b: nat): Bhdr
  {
    if h.left == a then h.(left := b) else h.(right := b)
  }

  /** m' is m outside the subtree at a, but for the link to it, which is to b. */
  ghost predicate Around(m: Memory, m': Memory, t: Tree, a: nat, b: nat)
    requires IsHead(t, a) && a < |m|
  {
    |m'| == |m| && forall x :: x in Addrs(t) && x !in Addrs(Sub(t, a)) && x < |m| ==>
      m'[x] == if x == m[a].parent then Relinked(m[x], a, b) else m[x]
  }

  /** The subtree at a is replaced by one at b. */
  lemma {:induction false} Replace(m: Memory, m': Memory, p: nat, par: nat, t: Tree, a: nat, b: nat, u: Tree)
    requires Rep(m, p, par, t) && Apart(t) && IsHead(t, a) && a < |m|
    requires Rep(m', b, m[a].parent, u) && Around(m, m', t, a, b)
    ensures Rep(m', if a == p then b else p, par, Subst(t, a, u))
    decreases t
  {
    if a == p {
      assert t.ring[0] == a;
    } else if IsHead(t.l, a) {
      ReplaceLeft(m, m', p, par, t, a, b);
      Replace(m, m', m[p].left, p, t.l, a, b, u);
    } else {
      ReplaceRight(m, m', p, par, t, a, b);
      Replace(m, m', m[p].right, p, t.r, a, b, u);
    }
  }

  /** What a change in the left subtree leaves as it was. */
  lemma ReplaceLeft(m: Memory, m': Memory, p: nat, par: nat, t: Tree, a: nat, b: nat)
    requires Rep(m, p, par, t) && Apart(t) && t.Node? && IsHead(t.l, a) && IsHead(t, a) && a < |m| && a != p && Around(m, m', t, a, b)
    ensures Around(m, m', t.l, a, b) && 0 < p < |m|
    ensures Ring(m', t.size, t.ring) && Member(m', t.size, t.ring, 0) && Rep(m', m'[p].right, p, t.r)
    ensures m'[p].parent == par && m'[p].left == if a == m[p].left then b else m[p].left
  {
    HeadIn(t.l, a);
    HeadRep(m, m[p].left, p, t.l, a);
    Bounds(m, p, par, t);
    assert p in Elems(t.ring);
    var q := m[a].parent;
    assert q == p || q in Addrs(t.l);
    forall x | x in t.ring && x != p && x < |m| ensures m'[x] == m[x] {
      assert x in Elems(t.ring);
    }
    HeadRing(m, m', t.size, t.ring);
    Frame(m, m', m[p].right, p, t.r);
  }

  lemma ReplaceRight(m: Memory, m': Memory, p: nat, par: nat, t: Tree, a: nat, b: nat)
    requires Rep(m, p, par, t) && Apart(t) && t.Node? && IsHead(t.r, a) && !IsHead(t.l, a) && IsHead(t, a) && a < |m| && a != p
    requires Around(m, m', t, a, b)
    ensures Around(m, m', t.r, a, b) && 0 < p < |m|
    ensures Ring(m', t.size, t.ring) && Member(m', t.size, t.ring, 0) && Rep(m', m'[p].left, p, t.l)
    ensures m'[p].parent == par && m'[p].right == if a == m[p].right then b else m[p].right
  {
    HeadIn(t.r, a);
    HeadRep(m, m[p].right, p, t.r, a);
    Bounds(m, p, par, t);
    Bounds(m, m[p].left, p, t.l);
    assert p in Elems(t.ring);
    var q := m[a].parent;
    assert q == p || q in Addrs(t.r);
    forall x | x in t.ring && x != p && x < |m| ensures m'[x] == m[x] {
      assert x in Elems(t.ring);
    }
    HeadRing(m, m', t.size, t.ring);
    Frame(m, m', m[p].left, p, t.l);
  }
}
