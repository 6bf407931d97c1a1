/** The pool allocator (9/alloc.c). */
module PoolAlloc {
  import opened PoolTree
  import opened PoolDelete
  import opened PoolUnlink
  import opened PoolInsert
  import opened PoolCells
  import NT = NumberTheory

  /** Where a block's data begin, after its magic and size. */
  const DATA: nat := 8

  /** The header and the tail of a block. */
  const BHDRSIZE: nat := 12

  /** What the tree's pointers do not touch. */
  ghost predicate SameBlock(h: Bhdr, h': Bhdr)
  {
    h'.magic == h.magic && h'.size == h.size && h'.clink == h.clink && h'.csize == h.csize
  }

  ghost predicate Kept(m: Memory, m': Memory)
  {
    |m'| == |m| && forall x :: 0 <= x < |m| ==> SameBlock(m[x], m'[x])
  }

  lemma KeptSelf(m: Memory)
    ensures Kept(m, m)
  {
  }

  lemma KeptTrans(a: Memory, b: Memory, c: Memory)
    requires Kept(a, b) && Kept(b, c)
    ensures Kept(a, c)
  {
  }

  lemma KeptUnlinked(m: Memory, a: nat)
    requires a < |m| && m[a].prev < |m| && m[a].fwd < |m|
    ensures Kept(m, Unlinked(m, a))
    ensures forall x :: 0 <= x < |m| && x != m[a].prev && x != m[a].fwd ==> Unlinked(m, a)[x] == m[x]
  {
  }

  lemma KeptPromoted(m: Memory, t: nat, f: nat)
    requires t < |m| && f < |m| && Distinct(m, t, f)
    ensures Kept(m, Promoted(m, t, f))
    ensures forall x :: 0 <= x < |m| && (x == 0 || (x != f && x != m[t].parent && x != m[t].left && x != m[t].right)) ==> Promoted(m, t, f)[x] == m[x]
  {
    hide Promoted;
    forall x | 0 <= x < |m|
      ensures SameBlock(m[x], Promoted(m, t, f)[x])
      ensures x == 0 || (x != f && x != m[t].parent && x != m[t].left && x != m[t].right) ==> Promoted(m, t, f)[x] == m[x]
    {
      PromotedAt(m, t, f, x);
    }
  }

  lemma KeptAttached(m: Memory, a: nat, rp: nat)
    requires a < |m|
    ensures Kept(m, Attached(m, a, rp))
    ensures forall x :: 0 <= x < |m| && (x == 0 || (x != rp && x != m[a].parent)) ==> Attached(m, a, rp)[x] == m[x]
  {
  }

  lemma KeptPulled(m: Memory, f: nat, rp: nat)
    requires f < |m| && rp < |m|
    ensures Kept(m, Pulled(m, f, rp))
  {
  }

  lemma KeptTopped(m: Memory, t: nat, rp: nat, far: bool)
    requires t < |m| && rp < |m|
    ensures Kept(m, Topped(m, t, rp, far))
  {
    if far {
      var m1 := SetParent(SetRight(m, rp, m[t].right), m[t].right, rp);
      assert Kept(m, m1);
      var m2 := SetParent(SetLeft(m1, rp, m1[t].left), m1[t].left, rp);
      assert Kept(m1, m2);
    }
  }

  lemma KeptJoined(m: Memory, t: nat, f: nat, rp: nat)
    requires t < |m| && f < |m| && rp < |m|
    ensures Kept(m, Joined(m, t, f, rp))
  {
    hide Pulled, Topped, SameBlock;
    if f != t {
      KeptPulled(m, f, rp);
      KeptTopped(Pulled(m, f, rp), t, rp, true);
      KeptTrans(m, Pulled(m, f, rp), Joined(m, t, f, rp));
    } else {
      KeptTopped(m, t, rp, false);
    }
  }

  lemma KeptFresh(m: Memory, q: nat)
    requires q < |m|
    ensures Kept(m[q := m[q].(magic := MAGIC_F)], m[q := m[q].(magic := MAGIC_F, left := 0, right := 0, parent := 0, fwd := q, prev := q)])
  {
  }

  lemma KeptAppended(m: Memory, h: nat, a: nat)
    requires h < |m| && a < |m| && m[h].prev < |m|
    ensures Kept(m, Appended(m, h, a))
    ensures Appended(m, h, a) == SetPrev(SetFwd(SetFwd(SetPrev(m, a, m[h].prev), m[h].prev, a), a, h), h, a)
    ensures Appended(m, h, a)[a].magic == m[a].magic && Appended(m, h, a)[a].size == m[a].size
    ensures forall x :: 0 <= x < |m| && x != h && x != a && x != m[h].prev ==> Appended(m, h, a)[x] == m[x]
  {
  }

  lemma KeptHung(m: Memory, tp: nat, a: nat, left: bool)
    requires tp < |m| && 0 < a < |m| && a != tp
    ensures Kept(m, Hung(m, tp, a, left))
    ensures Hung(m, tp, a, left)[a].magic == m[a].magic && Hung(m, tp, a, left)[a].size == m[a].size
    ensures forall x :: 0 <= x < |m| && x != tp && x != a ==> Hung(m, tp, a, left)[x] == m[x]
    ensures Hung(m, tp, a, left) == if left then SetLeft(SetParent(m, a, tp), tp, a) else SetRight(SetParent(m, a, tp), tp, a)
    ensures SetParent(m, a, tp)[tp].size == m[tp].size
  {
  }

  lemma EmptyIns(m: Memory, t: Tree, q: nat, s: nat)
    requires Rep(m, 0, 0, t)
    ensures Ins(t, q, s) == Node(Leaf, s, [q], Leaf) && Addrs(t) == {}
  {
    Bounds(m, 0, 0, t);
  }

  lemma TopBelow(m: Memory, p: nat, t: Tree)
    requires Rep(m, p, 0, t) && p != 0
    ensures IsHead(t, p) && Sub(t, p) == t
  {
  }

  lemma SeatFound(t: Tree, x: nat, q: nat, s: nat)
    requires Seat(t, x, q, s) && IsHead(t, x) && s == Sub(t, x).size
    ensures var u := Sub(t, x); Ins(t, q, s) == Subst(t, x, u.(ring := u.ring + [q]))
  {
  }

  /** The new block hangs under tp. */
  ghost predicate Hangs(t: Tree, tp: nat, q: nat, s: nat)
  {
    Seat(t, tp, q, s) && var u := Sub(t, tp); s != u.size && (if s < u.size then u.l.Leaf? else u.r.Leaf?)
  }

  lemma SeatLast(t: Tree, tp: nat, q: nat, s: nat)
    requires Seat(t, tp, q, s) && IsHead(t, tp) && var u := Sub(t, tp); s != u.size && (if s < u.size then u.l.Leaf? else u.r.Leaf?)
    ensures Hangs(t, tp, q, s)
  {
  }

  lemma HangsUnder(m: Memory, p: nat, t: Tree, tp: nat, q: nat, s: nat)
    requires Rep(m, p, 0, t) && Apart(t) && Hangs(t, tp, q, s) && q !in Addrs(t) && Single(m, q, s)
    ensures tp < |m| && tp in Addrs(t) && tp != q && Rep(Hung(m, tp, q, s < m[tp].size), p, 0, Ins(t, q, s))
  {
    Children(m, p, t, tp);
    var u := Sub(t, tp);
    InsLeaf(u, q, s);
    hide Rep, Apart, Addrs, Ins, Subst, Hung;
    HungRep(m, p, t, tp, q, s, s < m[tp].size);
  }

  lemma InsLeaf(u: Tree, q: nat, s: nat)
    requires u.Node? && s != u.size && (if s < u.size then u.l.Leaf? else u.r.Leaf?)
    ensures var v := Node(Leaf, s, [q], Leaf); Ins(u, q, s) == if s < u.size then u.(l := v) else u.(r := v)
  {
  }

  lemma RingOfOne(m: Memory, p: nat, par: nat, u: Tree)
    requires Rep(m, p, par, u) && Apart(u) && u.Node?
    ensures p < |m| && (m[p].fwd != p <==> |u.ring| > 1)
  {
    assert Member(m, u.size, u.ring, 0);
  }

  /** The headers around a head with other blocks. */
  lemma HeadParts(m: Memory, p: nat, t: Tree, a: nat)
    requires Rep(m, p, 0, t) && Apart(t) && IsHead(t, a) && |Sub(t, a).ring| > 1
    ensures 0 < a < |m| && var f := m[a].fwd; Distinct(m, a, f) && f < |m| && m[a].prev < |m| && m[a].parent < |m| && m[a].prev != 0
    ensures m[a].fwd in Addrs(t) && m[a].prev in Addrs(t) && a in Addrs(t)
    ensures m[a].parent == 0 || m[a].parent in Addrs(t)
    ensures m[a].left == 0 || m[a].left in Addrs(t)
    ensures m[a].right == 0 || m[a].right in Addrs(t)
  {
    HeadIn(t, a);
    HeadRep(m, p, 0, t, a);
    Bounds(m, p, 0, t);
    var u := Sub(t, a);
    PromotedRep(m, a, m[a].parent, u);
    ChildOf(m, a, m[a].parent, u);
    assert u.ring[1] in Elems(u.ring) && m[a].prev in Elems(u.ring);
  }

  /** Where a head with a single block lies, and what is below it. */
  lemma LoneParts(m: Memory, p: nat, t: Tree, a: nat)
    requires Rep(m, p, 0, t) && Apart(t) && Ordered(t) && IsHead(t, a)
    ensures 0 < a < |m| && var u := Sub(t, a);
      && Apart(u) && Ordered(u) && Apart(u.l) && Apart(u.r) && Rep(m, a, m[a].parent, u) && a !in Addrs(u.l) && a !in Addrs(u.r)
      && Rep(m, m[a].left, a, u.l) && Rep(m, m[a].right, a, u.r) && m[a].left < |m| && m[a].right < |m|
      && (m[a].left == 0 <==> u.l.Leaf?) && (m[a].right == 0 <==> u.r.Leaf?)
      && Addrs(u.l) <= Addrs(u) && Addrs(u.r) <= Addrs(u) <= Addrs(t) && a in Addrs(u)
    ensures m[a].parent < |m|
  {
    HeadIn(t, a);
    HeadRep(m, p, 0, t, a);
    SubOrdered(t, a);
    var u := Sub(t, a);
    ChildOf(m, a, m[a].parent, u);
    assert a in Elems(u.ring);
    Bounds(m, p, 0, t);
  }

  class Pool {
    const maxsize: nat
    const ressize: nat
    const quanta: nat
    const chunk: nat
    var mem: Memory
    var tails: seq<nat>
    var root: nat
    var chain: nat
    var cursize: nat
    var arenasize: nat
    var hw: nat
    var nalloc: nat
    var nfree: nat
    var nbrk: nat
    ghost var tree: Tree
    ghost var cells: seq<Cell>

    /** An empty pool, in a memory of n addresses. */
    constructor (maxsize: nat, ressize: nat, quanta: nat, chunk: nat, n: nat)
      requires chunk > 0 && chunk % (quanta + 1) == 0 && quanta >= BHDRSIZE
      ensures Valid() && cells == [] && cursize == 0 && arenasize == 0 && |mem| == n
      ensures this.maxsize == maxsize && this.ressize == ressize && this.quanta == quanta && this.chunk == chunk
    {
      this.maxsize, this.ressize, this.quanta, this.chunk := maxsize, ressize, quanta, chunk;
      mem := seq(n, _ => Bhdr(NOMAGIC, 0, 0, 0, 0, 0, 0, 0, 0));
      tails := seq(n, _ => 0);
      root, chain, cursize, arenasize, hw, nalloc, nfree, nbrk := 0, 0, 0, 0, 0, 0, 0, 0;
      tree, cells := Leaf, [];
    }

    /** The arenas are tiled and the newest is at chain. */
    ghost predicate Shape()
      reads this
    {
      && chunk > 0 && chunk % (quanta + 1) == 0 && quanta >= BHDRSIZE && |tails| == |mem|
      && Tiled(mem, tails, quanta + 1, cells) && Newest(mem, cells, chain)
    }

    /** The tree holds just the free blocks, and cursize is the size of the others. */
    ghost predicate Valid()
      reads this
    {
      Shape() && Treed() && FreeSet(mem, cells) == Addrs(tree) && Used(mem, cells) == cursize
    }

    /** The blocks in use. */
    ghost function InUse(): set<nat>
      reads this
    {
      Taken(mem, cells)
    }

    /** The pointers from root spell out a tree of rings in order of size. */
    ghost predicate Treed()
      reads this
    {
      Rep(mem, root, 0, tree) && Apart(tree) && Ordered(tree)
    }

    /** Takes the block t out of the tree. */
    method pooldel(t: nat)
      requires Treed() && t in Addrs(tree)
      modifies `mem, `root, `tree
      ensures Treed() && tree == Del(old(tree), t) && Addrs(tree) == old(Addrs(tree)) - {t}
      ensures Kept(old(mem), mem) && forall x :: 0 <= x < |mem| && x !in old(Addrs(tree)) ==> mem[x] == old(mem)[x]
    {
      hide Rep, Apart, Ordered, Del, Addrs, IsHead, Sub, Kept, Unlinked, Promoted, Attached;
      ghost var T, m := tree, mem;
      DelFacts(T, t);
      Bounds(mem, root, 0, T);
      HeadTest(mem, root, T, t);
      tree := Del(T, t);
      if mem[t].parent == 0 && root != t {
        MemberGone(mem, root, T, t);
        KeptUnlinked(mem, t);
        unlink(t);
        return;
      }
      HeadRep(mem, root, 0, T, t);
      HeadIn(T, t);
      RingOfOne(mem, t, mem[t].parent, Sub(T, t));
      if mem[t].fwd != t {
        HeadGone(mem, root, T, t);
        HeadParts(mem, root, T, t);
        KeptPromoted(mem, t, mem[t].fwd);
        promote(t, mem[t].fwd);
        KeptUnlinked(mem, t);
        KeptTrans(m, mem, Unlinked(mem, t));
        unlink(t);
        return;
      }
      LoneParts(mem, root, T, t);
      var rp, par := below(t, Sub(T, t));
      LoneGone(m, root, T, t, mem, rp, par);
      KeptAttached(mem, t, rp);
      KeptTrans(m, mem, Attached(mem, t, rp));
      attach(t, rp);
    }

    /** The ring of t closes without it. */
    method unlink(t: nat)
      requires t < |mem| && mem[t].prev < |mem| && mem[t].fwd < |mem|
      modifies `mem
      ensures mem == Unlinked(old(mem), t)
    {
      mem := SetFwd(mem, mem[t].prev, mem[t].fwd);
      mem := SetPrev(mem, mem[t].fwd, mem[t].prev);
    }

    /** f takes the place of t in the tree. */
    method promote(t: nat, f: nat)
      requires t < |mem| && 0 < f < |mem| && mem[t].parent < |mem| && f != t && t != mem[t].parent && f != mem[t].parent
      requires t != mem[t].left
      modifies `mem, `root
      ensures mem == Promoted(old(mem), t, f)
      ensures root == if old(mem[t].parent) == 0 then f else old(root)
    {
      var s := mem[t].parent;
      mem := mem[f := mem[f].(parent := s)];
      if s == 0 {
        root := f;
      } else if mem[s].left == t {
        mem := SetLeft(mem, s, f);
      } else {
        mem := SetRight(mem, s, f);
      }
      var rp := mem[t].left;
      mem := SetLeft(mem, f, rp);
      if rp != 0 {
        mem := SetParent(mem, rp, f);
      }
      rp := mem[t].right;
      mem := SetRight(mem, f, rp);
      if rp != 0 {
        mem := SetParent(mem, rp, f);
      }
    }

    /** rp takes the place of t in the tree. */
    method attach(t: nat, rp: nat)
      requires t < |mem| && mem[t].parent < |mem|
      modifies `mem, `root
      ensures mem == Attached(old(mem), t, rp)
      ensures root == if old(mem[t].parent) == 0 then rp else old(root)
    {
      var q := mem[t].parent;
      if q == 0 {
        root := rp;
      } else if t == mem[q].left {
        mem := SetLeft(mem, q, rp);
      } else {
        mem := SetRight(mem, q, rp);
      }
      if rp != 0 {
        mem := SetParent(mem, rp, q);
      }
    }

    /** Makes one tree of the two below t; its top is rp. */
    method below(t: nat, ghost u: Tree) returns (rp: nat, ghost par: nat)
      requires 0 < t < |mem| && Rep(mem, t, mem[t].parent, u) && Apart(u) && Ordered(u) && u.Node? && Apart(u.l) && Apart(u.r)
      requires Rep(mem, mem[t].left, t, u.l) && Rep(mem, mem[t].right, t, u.r) && mem[t].left < |mem| && mem[t].right < |mem|
      requires (mem[t].left == 0 <==> u.l.Leaf?) && (mem[t].right == 0 <==> u.r.Leaf?) && t !in Addrs(u.r)
      modifies `mem
      ensures |mem| == old(|mem|) && Kept(old(mem), mem) && Rep(mem, rp, par, Join(u.l, u.r))
      ensures rp == 0 || rp in Addrs(u.l) || rp in Addrs(u.r)
      ensures forall x :: 0 <= x < |mem| && x !in Addrs(u.l) && x !in Addrs(u.r) ==> mem[x] == old(mem)[x]
    {
      hide Rep, Apart, Ordered, Addrs, Kept, Pulled, Topped;
      KeptSelf(mem);
      ChildOf(mem, t, mem[t].parent, u);
      par := t;
      if mem[t].left == 0 {
        rp := mem[t].right;
      } else if mem[t].right == 0 {
        rp := mem[t].left;
      } else {
        var f;
        f, rp := lowest(t, u.r);
        par := f;
        InTree(mem, t, u.r, f, rp);
        JoinedRep(mem, t, mem[t].parent, u, f, rp);
        KeptJoined(mem, t, f, rp);
        if f != t {
          pull(f, rp);
        }
        top(t, rp, f != t);
      }
    }

    /** The smallest block above t, and the one it hangs from. */
    method lowest(t: nat, ghost r: Tree) returns (f: nat, rp: nat)
      requires t < |mem| && Rep(mem, mem[t].right, t, r) && Apart(r) && r.Node? && t !in Addrs(r)
      ensures OnLeft(mem, t, r, f, rp) && mem[rp].left == 0
    {
      hide Rep, Apart, Addrs, OnLeft;
      f := t;
      rp := mem[t].right;
      LeftFirst(mem, t, r);
      ghost var todo := Addrs(r);
      InTree(mem, t, r, f, rp);
      var s := mem[rp].left;
      while s != 0
        invariant OnLeft(mem, t, r, f, rp) && rp < |mem| && s == mem[rp].left && IsHead(r, rp)
        decreases Addrs(Sub(r, rp))
      {
        LeftNext(mem, t, r, f, rp);
        f := rp;
        rp := s;
        InTree(mem, t, r, f, rp);
        s := mem[rp].left;
      }
    }

    /** f gives up rp. */
    method pull(f: nat, rp: nat)
      requires f < |mem| && rp < |mem|
      modifies `mem
      ensures mem == Pulled(old(mem), f, rp)
    {
      var s := mem[rp].right;
      mem := SetLeft(mem, f, s);
      if s != 0 {
        mem := SetParent(mem, s, f);
      }
    }

    /** rp comes above the two trees below t. */
    method top(t: nat, rp: nat, far: bool)
      requires t < |mem| && rp < |mem|
      modifies `mem
      ensures mem == Topped(old(mem), t, rp, far)
    {
      var s: nat;
      if far {
        s := mem[t].right;
        mem := SetRight(mem, rp, s);
        if s != 0 {
          mem := SetParent(mem, s, rp);
        }
      }
      s := mem[t].left;
      mem := SetLeft(mem, rp, s);
      mem := SetParent(mem, s, rp);
    }

    /** Puts the block q into the tree. */
    method pooladd(q: nat)
      requires Treed() && q !in Addrs(tree) && 0 < q < |mem|
      modifies `mem, `root, `tree
      ensures |mem| == old(|mem|) && Treed() && tree == Ins(old(tree), q, mem[q].size) && Addrs(tree) == old(Addrs(tree)) + {q}
      ensures mem[q].magic == MAGIC_F && Kept(old(mem[q := mem[q].(magic := MAGIC_F)]), mem)
      ensures forall x :: 0 <= x < |mem| && x != q && x !in old(Addrs(tree)) ==> mem[x] == old(mem)[x]
    {
      hide Rep, Apart, Ordered, Ins, Addrs, IsHead, Sub, Kept, Appended, Hung, Seat, Hangs;
      ghost var T, m, s := tree, mem, mem[q].size;
      mem := mem[q := mem[q].(magic := MAGIC_F, left := 0, right := 0, parent := 0, fwd := q, prev := q)];
      ghost var m1 := mem;
      KeptFresh(m, q);
      Bounds(m, root, 0, T);
      Frame(m, m1, root, 0, T);
      InsAddrs(T, q, s);
      InsOrdered(T, q, s);
      var t := root;
      if t == 0 {
        root := q;
        tree := Ins(T, q, s);
        SingleRep(m1, q, s, 0);
        EmptyIns(m1, T, q, s);
        return;
      }
      var size := mem[q].size;
      var tp := 0;
      SeatFirst(m1, root, T, q, s);
      ghost var under := Addrs(T);
      TopBelow(m1, root, T);
      while t != 0
        invariant mem == m1 && root == old(root) && tree == old(tree)
        invariant if t != 0 then Seat(T, t, q, s) && IsHead(T, t) && under == Addrs(Sub(T, t))
                  else Hangs(T, tp, q, s)
        decreases if t != 0 then 1 else 0, under
      {
        Children(m1, root, T, t);
        SeatNext(m1, root, T, t, q, s);
        if size == mem[t].size {
          SeatFound(T, t, q, s);
          tree := Ins(T, q, s);
          GrownRing(m1, root, T, t, q);
          KeptAppended(m1, t, q);
          KeptTrans(m[q := m[q].(magic := MAGIC_F)], m1, Appended(m1, t, q));
          mem := SetPrev(mem, q, mem[t].prev);
          mem := SetFwd(mem, mem[q].prev, q);
          mem := SetFwd(mem, q, t);
          mem := SetPrev(mem, t, q);
          return;
        }
        tp := t;
        if size < mem[t].size {
          t := mem[t].left;
        } else {
          t := mem[t].right;
        }
        if t != 0 {
          under := Addrs(Sub(T, t));
        } else {
          SeatLast(T, tp, q, s);
        }
      }
      HangsUnder(m1, root, T, tp, q, s);
      KeptHung(m1, tp, q, size < m1[tp].size);
      KeptTrans(m[q := m[q].(magic := MAGIC_F)], m1, Hung(m1, tp, q, size < m1[tp].size));
      tree := Ins(T, q, s);
      mem := SetParent(mem, q, tp);
      if size < mem[tp].size {
        mem := SetLeft(mem, tp, q);
      } else {
        mem := SetRight(mem, tp, q);
      }
    }

    /** Takes a free block out of the tree, and marks it as in use. */
    method take(b: nat)
      requires Valid() && b in Addrs(tree)
      modifies `mem, `root, `tree
      ensures Shape() && Treed() && FreeSet(mem, cells) == Addrs(tree) == old(Addrs(tree)) - {b}
      ensures b < |mem| && Used(mem, cells) == cursize + mem[b].size && InUse() == old(InUse()) + {b} && b !in old(InUse())
      ensures mem[b].magic == MAGIC_A && Kept(old(mem[b := mem[b].(magic := MAGIC_A)]), mem)
    {
      hide Rep, Apart, Ordered, Addrs, Tiled, FreeSet, Taken, Used, Newest, Del;
      ghost var m0, T := mem, tree;
      Bounds(mem, root, 0, tree);
      pooldel(b);
      ghost var m1 := mem;
      mem := mem[b := mem[b].(magic := MAGIC_A)];
      Frame(m1, mem, root, 0, tree);
      ghost var k := FreeAt(m0, tails, quanta + 1, cells, b);
      TiledKept(m0, m1, tails, quanta + 1, cells, chain);
      Marked(m1, mem, tails, quanta + 1, cells, k, chain);
    }

    /** The head of the ring of blocks of just this size, or else the best fit among the larger ones. */
    method search(size: nat) returns (t: nat, q: nat)
      requires Treed()
      ensures t != 0 ==> IsHead(tree, t) && t in Addrs(tree) && t < |mem| && mem[t].size == size
      ensures t == 0 && q != 0 ==> BestFit(mem, Addrs(tree), size, q) && mem[q].size > size
      ensures t == 0 && q == 0 ==> NoFit(mem, Addrs(tree), size)
    {
      hide Rep, Apart, Ordered, Addrs, Sub, IsHead, Fits;
      t := root;
      q := 0;
      ghost var C, under := tree, if root == 0 then {} else Addrs(tree);
      FitsFirst(mem, root, tree, size);
      while t != 0
        invariant t != 0 ==> IsHead(tree, t) && C == Sub(tree, t) && under == Addrs(C)
        invariant t == 0 ==> C.Leaf?
        invariant Fits(mem, tree, size, C, q)
        decreases if t != 0 then 1 else 0, under
      {
        Children(mem, root, tree, t);
        FitsNext(mem, root, tree, size, t, q);
        if mem[t].size == size {
          return;
        }
        if size < mem[t].size {
          q := t;
          C := C.l;
          t := mem[t].left;
        } else {
          C := C.r;
          t := mem[t].right;
        }
        under := Addrs(C);
      }
      FitsLast(mem, root, tree, size, q);
    }

    /** Adds a block that was taken to the count. */
    method count(b: nat)
      requires b < |mem|
      modifies `cursize, `hw
      ensures cursize == old(cursize) + mem[b].size && hw == if cursize > old(hw) then cursize else old(hw)
    {
      cursize := cursize + mem[b].size;
      if cursize > hw {
        hw := cursize;
      }
    }

    /** Gives the end of the block q, which is in use but not counted, back to the tree. */
    method split(q: nat, size: nat)
      requires Shape() && Treed() && FreeSet(mem, cells) == Addrs(tree) && q in InUse()
      requires q < |mem| && Used(mem, cells) == cursize + mem[q].size
      requires 0 < size < mem[q].size && size % (quanta + 1) == 0 && NoFreeAfter(mem, cells, q)
      modifies `mem, `tails, `root, `tree, `cells
      ensures Shape() && Treed() && FreeSet(mem, cells) == Addrs(tree)
      ensures |mem| == old(|mem|) && Used(mem, cells) == cursize + mem[q].size && mem[q].size == size && InUse() == old(InUse())
      ensures mem[q].magic == old(mem)[q].magic
      ensures forall x :: x in InUse() && x != q ==> x < |mem| && SameBlock(old(mem)[x], mem[x])
    {
      hide Rep, Apart, Ordered, Addrs, Tiled, FreeSet, Taken, Used, Newest, Ins, SplitCells;
      ghost var g := quanta + 1;
      ghost var k := TakenAt(mem, tails, g, cells, q);
      ghost var m0, tails0, cells0 := mem, tails, cells;
      assert NoFreeAfter(mem, cells, q) ==> !IsFree(mem, cells[Succ(k)]);
      NoCellInside(mem, tails, g, cells, k, q + size);
      Bounds(mem, root, 0, tree);
      var ns := mem[q].size - size;
      mem := mem[q := mem[q].(size := size)];
      tails := tails[q + size := q];
      var t := q + mem[q].size;
      mem := mem[t := mem[t].(size := ns)];
      tails := tails[t + ns := t];
      Frame(m0, mem, root, 0, tree);
      ghost var m1 := mem;
      pooladd(t);
      Splits(m0, m1, mem, tails0, tails, g, cells0, k, size, chain);
      cells := SplitCells(cells, k, t);
    }

    /** The block a takes in d, the one after it. */
    method swallow(a: nat, d: nat, ghost k: nat)
      requires Shape() && Treed() && a !in Addrs(tree) && d !in Addrs(tree)
      requires k + 2 < |cells| && cells[k] == Cell(a, Block) && cells[k+1] == Cell(d, Block) && !IsFree(mem, cells[k+2])
      modifies `mem, `tails, `cells
      ensures Shape() && Treed() && cells == MergedCells(old(cells), k) && |mem| == old(|mem|) && a < |mem| && d < |mem|
      ensures FreeSet(mem, cells) == old(FreeSet(mem, cells)) - {d} && InUse() == old(InUse()) - {d}
      ensures Used(mem, cells) == old(Used(mem, cells) - Weight(mem, cells[k]) - Weight(mem, cells[k+1])) + Weight(mem, Cell(a, Block))
      ensures mem[a].size == old(mem[a].size + mem[d].size) && mem[a].magic == old(mem)[a].magic && mem[a].parent == old(mem)[a].parent
      ensures forall x :: 0 <= x < |mem| && x != a && x != d ==> mem[x] == old(mem)[x]
      ensures k + 1 < |cells| && cells[k] == Cell(a, Block) && !IsFree(mem, cells[k+1])
    {
      hide Rep, Apart, Ordered, Addrs, Tiled, FreeSet, Taken, Used, Newest, IsFree, MergedCells;
      ghost var g, m0, tails0, cells0 := quanta + 1, mem, tails, cells;
      BothThere(mem, tails, g, cells, k);
      Bounds(mem, root, 0, tree);
      mem := mem[d := mem[d].(magic := NOMAGIC)];
      mem := mem[a := mem[a].(size := mem[a].size + mem[d].size)];
      tails := tails[a + mem[a].size := a];
      Frame(m0, mem, root, 0, tree);
      cells := MergedCells(cells, k);
      Merged(m0, mem, tails0, tails, g, cells0, k, chain);
    }

    /** Joins the block b, which is in use but no longer counted, with a free one after it. */
    method joinForward(b: nat)
      requires Shape() && Treed() && FreeSet(mem, cells) == Addrs(tree) && b in InUse()
      requires b < |mem| && Used(mem, cells) == cursize + mem[b].size
      modifies `mem, `tails, `root, `tree, `cells
      ensures Shape() && Treed() && FreeSet(mem, cells) == Addrs(tree) && InUse() == old(InUse()) && |mem| == old(|mem|)
      ensures Used(mem, cells) == cursize + mem[b].size && NoFreeAfter(mem, cells, b) && mem[b].size >= old(mem[b].size)
      ensures forall x :: x in InUse() && x != b ==> x < |mem| && SameBlock(old(mem)[x], mem[x])
    {
      hide Rep, Apart, Ordered, Addrs, Tiled, FreeSet, Taken, Used, Newest, Del, NoFreeAfter, MergedCells;
      ghost var g, m0 := quanta + 1, mem;
      ghost var k := TakenAt(mem, tails, g, cells, b);
      OnlyNext(mem, tails, g, cells, k);
      AllInBounds(mem, tails, g, cells);
      var c := b + mem[b].size;
      if mem[c].magic == MAGIC_F {
        FreeNext(mem, tails, g, cells, k);
        pooldel(c);
        TiledKept(m0, mem, tails, g, cells, chain);
        AfterKept(m0, mem, cells, k);
        swallow(b, c, k);
        OnlyNext(mem, tails, g, cells, k);
      }
    }

    /** With its magic set to free, the block b would be all that is missing from the tree. */
    ghost predicate Loose(b: nat, inUse: set<nat>)
      reads this
    {
      0 < b < |mem| && b !in Addrs(tree) && Treed() && chunk > 0 && chunk % (quanta + 1) == 0 && quanta >= BHDRSIZE && |tails| == |mem|
      && var m := mem[b := mem[b].(magic := MAGIC_F)];
      Tiled(m, tails, quanta + 1, cells) && Newest(m, cells, chain) && FreeSet(m, cells) == Addrs(tree) + {b}
      && Taken(m, cells) == inUse && Used(m, cells) == cursize
    }

    /** Joins the block b, which is in use but no longer counted, with a free one before it. */
    method joinBackward(b: nat) returns (c: nat)
      requires Shape() && Treed() && FreeSet(mem, cells) == Addrs(tree) && b in InUse()
      requires b < |mem| && Used(mem, cells) == cursize + mem[b].size && NoFreeAfter(mem, cells, b)
      modifies `mem, `tails, `root, `tree, `cells
      ensures |mem| == old(|mem|) && Loose(c, old(InUse()) - {b}) && mem[c].size >= old(mem[b].size)
      ensures forall x :: x in old(InUse()) && x != b ==> x < |mem| && x != c && SameBlock(old(mem)[x], mem[x])
    {
      hide Rep, Apart, Ordered, Addrs, Tiled, FreeSet, Taken, Used, Newest, Del, NoFreeAfter, MergedCells, CellOk;
      ghost var g, m1 := quanta + 1, mem;
      ghost var k := TakenAt(mem, tails, g, cells, b);
      NoneAfter(mem, cells, k, b);
      AllInBounds(mem, tails, g, cells);
      FreeBefore(mem, tails, g, cells, k);
      c := tails[b];
      if mem[c].magic == MAGIC_F {
        pooldel(c);
        TiledKept(m1, mem, tails, g, cells, chain);
        AfterKept(m1, mem, cells, k);
        swallow(c, b, k - 1);
        AddedBack(mem, c);
      } else {
        MarkedFree(mem, tails, g, cells, k, chain);
        c := b;
      }
    }

    /** Gives the block at v back, joined with its free neighbours. */
    method poolfree(v: nat)
      requires Valid() && v >= DATA && v - DATA in InUse()
      modifies `mem, `tails, `root, `tree, `cells, `cursize, `nfree
      ensures Valid() && InUse() == old(InUse()) - {v - DATA} && |mem| == old(|mem|) && nfree == old(nfree) + 1
      ensures v - DATA < |mem| && cursize == old(cursize) - old(mem)[v - DATA].size
      ensures forall x :: x in InUse() ==> x < |mem| && SameBlock(old(mem)[x], mem[x])
      ensures !NoFit(mem, Addrs(tree), old(mem)[v - DATA].size)
    {
      hide Rep, Apart, Ordered, Addrs, Tiled, FreeSet, Taken, Used, Newest, NoFreeAfter, Ins;
      ghost var g := quanta + 1;
      var b: nat := v - DATA;
      ghost var k := TakenAt(mem, tails, g, cells, b);
      UsedAtLeast(mem, cells, k);
      AllInBounds(mem, tails, g, cells);
      nfree := nfree + 1;
      cursize := cursize - mem[b].size;
      joinForward(b);
      b := joinBackward(b);
      ghost var m3 := mem[b := mem[b].(magic := MAGIC_F)];
      pooladd(b);
      TiledKept(m3, mem, tails, g, cells, chain);
      assert SameBlock(m3[b], mem[b]);
    }

    /** Takes the block that fits best, if there is one, and gives back what is too much of it. */
    method fromTree(size: nat) returns (b: nat)
      requires Valid() && size > 0 && size % (quanta + 1) == 0
      modifies `mem, `tails, `root, `tree, `cells, `cursize, `hw
      ensures Valid() && |mem| == old(|mem|)
      ensures b == 0 ==> NoFit(mem, Addrs(tree), size) && mem == old(mem) && cells == old(cells) && Addrs(tree) == old(Addrs(tree))
      ensures b == 0 ==> cursize == old(cursize)
      ensures b != 0 ==> BestFit(old(mem), old(Addrs(tree)), size, b) && b !in old(InUse()) && InUse() == old(InUse()) + {b}
      ensures b != 0 ==> b < |mem| && mem[b].magic == MAGIC_A && (mem[b].size == size || Snug(old(mem)[b].size, mem[b].size, size))
      ensures forall x :: x in InUse() && x != b ==> x < |mem| && SameBlock(old(mem)[x], mem[x])
    {
      hide Rep, Apart, Ordered, Addrs, Tiled, FreeSet, Taken, Used, Newest, NoFreeAfter, IsHead, BestFit, NoFit;
      ghost var m0, g := mem, quanta + 1;
      AllInBounds(mem, tails, g, cells);
      var t, q := search(size);
      if t != 0 {
        FirstOfRing(mem, root, tree, t);
        t := mem[t].fwd;
        take(t);
        count(t);
        return t;
      }
      if q != 0 {
        FitIsFree(mem, Addrs(tree), size, q);
        ghost var k := FreeAt(mem, tails, g, cells, q);
        take(q);
        OnlyHere(m0, mem, tails, g, cells, k);
        var frag := mem[q].size - size;
        if frag < size / 4 && frag < 0x8000 {
          count(q);
          return q;
        }
        split(q, size);
        count(q);
        return q;
      }
      b := 0;
    }

    /** Memory from brk on is new to the pool, and there is enough of it. */
    ghost predicate Fresh(brk: nat)
      reads this
    {
      0 < brk && brk + maxsize <= |mem| && (|cells| > 0 ==> cells[|cells|-1].addr + quanta + 1 <= brk)
    }

    /** The leader of an arena of ns, and the header of its first block. */
    method leader(t: nat, ns: nat, size: nat)
      requires Treed() && Spans(mem, tails, Addrs(tree), t, quanta + 1, size, ns)
      modifies `mem, `tails, `chain
      ensures Treed() && Spans(mem, tails, Addrs(tree), t, quanta + 1, size, ns) && chain == t && |mem| == old(|mem|)
      ensures Headed(mem, tails, t, quanta + 1, size) && mem[t].csize == ns + quanta + 1
      ensures SameBelow(old(mem), mem, t) && forall x :: 0 <= x < t && x < |tails| ==> tails[x] == old(tails)[x]
    {
      hide Rep, Apart, Ordered, Addrs;
      ghost var m0 := mem;
      var ldr := quanta + 1;
      mem := mem[t := mem[t].(magic := MAGIC_E, size := ldr, csize := ns + ldr, clink := chain)];
      chain := t;
      tails := tails[t + ldr := t];
      var b := t + ldr;
      mem := mem[b := mem[b].(magic := MAGIC_A, size := size)];
      tails := tails[b + size := b];
      Frame(m0, mem, root, 0, tree);
    }

    /** The rest of an arena as a free block. */
    method rest(t: nat, ns: nat, size: nat)
      requires Treed() && Spans(mem, tails, Addrs(tree), t, quanta + 1, size, ns) && Headed(mem, tails, t, quanta + 1, size) && ns > size
      modifies `mem, `tails, `root, `tree
      ensures |mem| == |tails| == old(|mem|) && t + quanta + 1 + ns < |mem|
      ensures Treed() && Addrs(tree) == old(Addrs(tree)) + {t + quanta + 1 + size} && Headed(mem, tails, t, quanta + 1, size)
      ensures var q := t + quanta + 1 + size; mem[q].magic == MAGIC_F && mem[q].size == ns - size && tails[q+(ns-size)] == q
      ensures SameBelow(old(mem), mem, t) && mem[t].csize == old(mem)[t].csize
      ensures forall x :: 0 <= x < t && x < |tails| ==> tails[x] == old(tails)[x]
    {
      hide Rep, Apart, Ordered, Addrs, Ins;
      ghost var m0 := mem;
      var q := t + quanta + 1 + size;
      mem := mem[q := mem[q].(size := ns - size)];
      tails := tails[q + (ns - size) := q];
      Frame(m0, mem, root, 0, tree);
      ghost var m1 := mem[q := mem[q].(magic := MAGIC_F)];
      pooladd(q);
      RestDone(m0, m1, mem, t, q);
      assert SameBlock(m1[t], mem[t]) && SameBlock(m1[t+quanta+1], mem[t+quanta+1]) && SameBlock(m1[q], mem[q]);
    }

    /** All headers of an arena: a block of the given size, and the rest of ns as a free one. */
    method headers(t: nat, ns: nat, size: nat)
      requires Treed() && Spans(mem, tails, Addrs(tree), t, quanta + 1, size, ns) && size % (quanta + 1) == 0 && ns % (quanta + 1) == 0
      modifies `mem, `tails, `root, `tree, `chain
      ensures |mem| == |tails| == old(|mem|) && Treed() && chain == t
      ensures Addrs(tree) == old(Addrs(tree)) + (if ns > size then {t + quanta + 1 + size} else {})
      ensures ArenaMade(mem, tails, t, quanta + 1, size, ns) && mem[t].csize == ns + quanta + 1
      ensures SameBelow(old(mem), mem, t) && forall x :: 0 <= x < t && x < |tails| ==> tails[x] == old(tails)[x]
    {
      hide Rep, Apart, Ordered, Addrs, Ins;
      leader(t, ns, size);
      var b := t + quanta + 1;
      var q := b;
      if ns > size {
        q := b + size;
        rest(t, ns, size);
      }
      ghost var m2 := mem;
      var end := q + mem[q].size;
      mem := mem[end := mem[end].(magic := MAGIC_E)];
      Bounds(m2, root, 0, tree);
      Frame(m2, mem, root, 0, tree);
    }

    /** Adds a new arena, of which a block of the given size is in use. */
    method newArena(t: nat, ns: nat, size: nat) returns (b: nat)
      requires Valid() && Fresh(t) && 0 < size <= ns && size % (quanta + 1) == 0 && ns % (quanta + 1) == 0
      requires ns + 2 * (quanta + 1) <= maxsize
      modifies `mem, `tails, `root, `tree, `cells, `chain, `cursize, `hw
      ensures Valid() && |mem| == old(|mem|) && b < |mem| && b != 0 && b !in old(InUse()) && InUse() == old(InUse()) + {b}
      ensures mem[b].magic == MAGIC_A && mem[b].size == size
      ensures forall x :: x in InUse() && x != b ==> x < |mem| && SameBlock(old(mem)[x], mem[x])
    {
      hide Rep, Apart, Ordered, Addrs, Tiled, FreeSet, Taken, Used, Newest, Arena, ArenaMade;
      ghost var g, m0, tails0 := quanta + 1, mem, tails;
      AllBelow(mem, tails, g, cells, t);
      AllInBounds(mem, tails, g, cells);
      headers(t, ns, size);
      b := t + quanta + 1;
      ArenaDone(m0, mem, tails0, tails, g, cells, t, size, ns);
      NewestArena(mem, cells, t, g, size, ns);
      ArenaBlock(mem, tails, t, g, size, ns);
      cells := cells + Arena(t, g, size, ns);
      count(b);
    }

    /** The newest arena goes on for n more: a block in use, not yet given to anyone, takes up its end mark. */
    method extend(n: nat) returns (q: nat)
      requires Valid() && chain != 0 && |cells| > 0 && n > 0 && n % (quanta + 1) == 0 && cells[|cells|-1].addr + n < |mem|
      modifies `mem, `tails, `cells, `cursize
      ensures Valid() && |mem| == old(|mem|) && q !in old(InUse()) && InUse() == old(InUse()) + {q} && q < |mem| && mem[q].size == n
      ensures forall x :: x in old(InUse()) ==> x < |mem| && SameBlock(old(mem)[x], mem[x])
      ensures cursize == old(cursize) + n
    {
      hide Rep, Apart, Ordered, Addrs, Tiled, FreeSet, Taken, Used, Newest, ExtendedCells;
      ghost var g, m0, tails0 := quanta + 1, mem, tails;
      NewestEnd(mem, tails, g, cells, chain);
      q := chain + mem[chain].csize;
      mem := mem[q := mem[q].(magic := MAGIC_A, size := n)];
      tails := tails[q + n := q];
      var t := q + mem[q].size;
      mem := mem[t := mem[t].(magic := MAGIC_E)];
      mem := mem[chain := mem[chain].(csize := mem[chain].csize + n)];
      cursize := cursize + n;
      ExtendDone(m0, mem, tails0, tails, g, cells, n, chain);
      Bounds(m0, root, 0, tree);
      Frame(m0, mem, root, 0, tree);
      cells := ExtendedCells(cells, n);
    }

    /** What is asked for, with a header and a tail, in whole units. */
    function Rounded(asize: nat): (s: nat)
      ensures s > 0 && s >= asize + BHDRSIZE && s % (quanta + 1) == 0 && s < asize + BHDRSIZE + quanta + 1
    {
      var g := quanta + 1;
      RoundUp(asize + BHDRSIZE, g);
      (asize + BHDRSIZE + quanta) / g * g
    }

    /** Whether the tree has nothing for a request. */
    ghost predicate NeedsMore(asize: nat)
      reads this
    {
      NoFit(mem, Addrs(tree), Rounded(asize))
    }

    /** Whether the limit of the pool leaves room for a new arena with a block of the given size. */
    predicate RoomFor(size: nat)
      reads this
    {
      arenasize + size + 2 * (quanta + 1) <= maxsize
    }

    /** Whether poolalloc finds a block: the tree has one, or new memory may be had. */
    ghost predicate Grants(asize: nat, restricted: bool, brk: nat)
      reads this
    {
      !(restricted && cursize > ressize) && (NeedsMore(asize) ==> brk != 0 && RoomFor(Rounded(asize)))
    }

    /** A request was met: by a block of the right size, and what was in use is as it was. */
    twostate predicate Met(asize: nat, v: nat)
      reads this
    {
      && v >= DATA && v - DATA < |mem| && v - DATA !in old(InUse()) && InUse() == old(InUse()) + {v - DATA}
      && mem[v-DATA].magic == MAGIC_A && mem[v-DATA].size >= asize + BHDRSIZE
    }

    /**
     * Finds a block for asize bytes: the best fit of the tree, or new memory. brk is where the system would put new
     * memory, 0 if it has none.
     */
    method dopoolalloc(asize: nat, restricted: bool, brk: nat) returns (v: nat)
      requires Valid() && (brk != 0 ==> Fresh(brk))
      modifies this
      ensures Valid() && |mem| == old(|mem|)
      ensures v == 0 ==> InUse() == old(InUse())
      ensures v != 0 ==> Met(asize, v)
      ensures forall x :: x in old(InUse()) ==> x < |mem| && SameBlock(old(mem)[x], mem[x])
      ensures asize < 0x4000_0000 && !old(NeedsMore(asize)) ==>
        && v != 0 && BestFit(old(mem), old(Addrs(tree)), Rounded(asize), v - DATA)
        && (mem[v-DATA].size == Rounded(asize) || Snug(old(mem)[v-DATA].size, mem[v-DATA].size, Rounded(asize)))
      ensures !(restricted && old(cursize) > ressize) ==>
        (v != 0 <==> asize < 0x4000_0000 && (old(NeedsMore(asize)) ==> brk != 0 && old(RoomFor(Rounded(asize)))))
      decreases if NeedsMore(asize) then 1 else 0, 0
    {
      hide Rep, Apart, Ordered, Addrs, Tiled, FreeSet, Taken, Used, Newest, NoFit, BestFit;
      v := 0;
      AllInBounds(mem, tails, quanta + 1, cells);
      if asize >= 0x4000_0000 {
        return;
      }
      var size := Rounded(asize);
      nalloc := nalloc + 1;
      var b := fromTree(size);
      if b != 0 {
        FitExists(old(mem), old(Addrs(tree)), size, b);
        return b + DATA;
      }
      var again;
      b, again := enlarge(size, brk);
      if again {
        v := poolalloc(asize, restricted, 0);
      } else if b != 0 {
        v := b + DATA;
      }
    }

    /** Gets memory for a block of the given size: a new arena for it, or more of the newest one, to be searched again. */
    method enlarge(size: nat, brk: nat) returns (b: nat, again: bool)
      requires Valid() && (brk != 0 ==> Fresh(brk)) && size > 0 && size % (quanta + 1) == 0
      modifies this
      ensures Valid() && |mem| == old(|mem|)
      ensures again ==> InUse() == old(InUse()) && !NoFit(mem, Addrs(tree), size) && cursize == old(cursize)
      ensures again || b != 0 <==> brk != 0 && old(RoomFor(size))
      ensures !again && b == 0 ==> InUse() == old(InUse())
      ensures !again && b != 0 ==> b < |mem| && b !in old(InUse()) && InUse() == old(InUse()) + {b}
      ensures !again && b != 0 ==> mem[b].magic == MAGIC_A && mem[b].size == size
      ensures forall x :: x in old(InUse()) ==> x < |mem| && SameBlock(old(mem)[x], mem[x])
    {
      hide Rep, Apart, Ordered, Addrs, Tiled, FreeSet, Taken, Used, Newest, NoFit;
      AllInBounds(mem, tails, quanta + 1, cells);
      b, again := 0, false;
      var ns := arenaFor(size);
      if ns == 0 {
        return;
      }
      var ldr := quanta + 1;
      nbrk := nbrk + 1;
      var t := brk;
      if t == 0 {
        nbrk := nbrk - 1;
        return;
      }
      HasCells(mem, cells, chain);
      if chain != 0 {
        NewestEnd(mem, tails, ldr, cells, chain);
      }
      if chain != 0 && t - (chain + mem[chain].csize) - ldr == 0 {
        goOn(ns, size);
        again := true;
        return;
      }
      b := newArena(t, ns, size);
    }

    /** The newest arena is made longer, by a free block that is large enough. */
    method goOn(ns: nat, size: nat)
      requires Valid() && chain != 0 && |cells| > 0 && ns % (quanta + 1) == 0 && size <= ns
      requires cells[|cells|-1].addr + ns + 2 * (quanta + 1) < |mem|
      modifies this
      ensures Valid() && |mem| == old(|mem|) && InUse() == old(InUse()) && !NoFit(mem, Addrs(tree), size) && cursize == old(cursize)
      ensures forall x :: x in InUse() ==> x < |mem| && SameBlock(old(mem)[x], mem[x])
    {
      hide Rep, Apart, Ordered, Addrs, Tiled, FreeSet, Taken, Used, Newest, NoFit;
      var alloc := ns + (quanta + 1) + (quanta + 1);
      WholeArena(ns, quanta + 1);
      ghost var m0 := mem;
      var b := extend(alloc);
      poolfree(b + DATA);
      StillFits(mem, Addrs(tree), alloc, size);
    }

    /** How much a new arena has, past its leader and end mark, for a block of the given size; 0 if it may not be had. */
    method arenaFor(size: nat) returns (ns: nat)
      requires chunk > 0 && chunk % (quanta + 1) == 0 && size > 0 && size % (quanta + 1) == 0
      modifies `arenasize
      ensures ns != 0 ==> ns >= size && ns % (quanta + 1) == 0 && ns + 2 * (quanta + 1) <= maxsize
      ensures ns != 0 ==> arenasize == old(arenasize) + ns + 2 * (quanta + 1) <= maxsize
      ensures ns == 0 ==> arenasize == old(arenasize)
      ensures ns != 0 <==> old(RoomFor(size))
    {
      ns := chunk;
      if size > ns {
        ns := size;
      }
      var ldr := quanta + 1;
      var alloc := ns + ldr + ldr;
      arenasize := arenasize + alloc;
      if arenasize > maxsize {
        arenasize := arenasize - alloc;
        var room := maxsize - arenasize - ldr - ldr;
        RoundDown(room, ldr);
        UnitsBelow(size, room, ldr);
        if room / ldr * ldr < size {
          return 0;
        }
        ns := room / ldr * ldr;
        alloc := ns + ldr + ldr;
        arenasize := arenasize + alloc;
      }
    }

    /** As dopoolalloc, but a restricted program gets nothing once the pool is fuller than it should be. */
    method poolalloc(asize: nat, restricted: bool, brk: nat) returns (v: nat)
      requires Valid() && (brk != 0 ==> Fresh(brk))
      modifies this
      ensures Valid() && |mem| == old(|mem|)
      ensures v == 0 ==> InUse() == old(InUse())
      ensures v != 0 ==> Met(asize, v)
      ensures forall x :: x in old(InUse()) ==> x < |mem| && SameBlock(old(mem)[x], mem[x])
      ensures asize < 0x4000_0000 && !old(NeedsMore(asize)) && !(restricted && old(cursize) > ressize) ==>
        && v != 0 && BestFit(old(mem), old(Addrs(tree)), Rounded(asize), v - DATA)
      ensures v != 0 <==> asize < 0x4000_0000 && old(Grants(asize, restricted, brk))
      decreases if NeedsMore(asize) then 1 else 0, 1
    {
      hide Rep, Apart, Ordered, Addrs, Tiled, FreeSet, Taken, Used, Newest, NoFit, BestFit;
      AllInBounds(mem, tails, quanta + 1, cells);
      if cursize > ressize && restricted {
        return 0;
      }
      v := dopoolalloc(asize, restricted, brk);
    }

    /** Whether there is a block at v, and it holds so much already. */
    predicate Holds(v: nat, size: nat)
      reads this
    {
      v != 0 && v >= DATA && v - DATA < |mem| && mem[v-DATA].size - BHDRSIZE >= size
    }

    /** Makes the block at v larger, in another place if it must: v is 0 for none. A size of 0 frees it. */
    method poolrealloc(v: nat, size: nat, restricted: bool, brk: nat) returns (nv: nat)
      requires Valid() && (v != 0 ==> v >= DATA && v - DATA in InUse()) && (brk != 0 ==> Fresh(brk))
      requires size == 0 ==> v != 0
      modifies this
      ensures Valid() && |mem| == old(|mem|)
      ensures size >= 0x4000_0000 ==> nv == 0 && InUse() == old(InUse())
      ensures size == 0 ==> nv == 0 && InUse() == old(InUse()) - {v - DATA}
      ensures 0 < size < 0x4000_0000 && nv == 0 ==> InUse() == old(InUse())
      ensures nv != 0 ==> nv >= DATA && nv - DATA in InUse() && nv - DATA < |mem| && mem[nv - DATA].size >= size + BHDRSIZE
      ensures 0 < size < 0x4000_0000 && old(Holds(v, size)) ==> nv == v && mem == old(mem)
      ensures 0 < size < 0x4000_0000 && !old(Holds(v, size)) ==> (nv != 0 <==> old(Grants(size, restricted, brk))) && (nv != 0 ==> nv != v)
      ensures nv == v && v != 0 ==> InUse() == old(InUse())
      ensures nv != 0 && nv != v ==> nv - DATA !in old(InUse())
      ensures nv != 0 && nv != v ==> InUse() == old(InUse()) + {nv - DATA} - (if v == 0 then {} else {v - DATA})
      ensures forall x :: x in old(InUse()) && x + DATA != v ==> x < |mem| && SameBlock(old(mem)[x], mem[x])
    {
      hide Rep, Apart, Ordered, Addrs, Tiled, FreeSet, Taken, Used, Newest, NoFit, BestFit;
      nv := 0;
      AllInBounds(mem, tails, quanta + 1, cells);
      if size >= 0x4000_0000 {
        return;
      }
      if size == 0 {
        poolfree(v);
        return;
      }
      if v != 0 {
        var osize := mem[v - DATA].size - BHDRSIZE;
        if osize >= size {
          return v;
        }
      }
      nv := poolalloc(size, restricted, brk);
      if nv != 0 && v != 0 {
        poolfree(v);
      }
    }
  }

  lemma RoundDown(x: int, g: nat)
    requires g > 0
    ensures var r := x / g * g; r <= x && r % g == 0
  {
    NT.DivMod(x, g);
    var q := x / g;
    assert q * g == g * q;
    NT.DividesIntro(g, q * g, q);
  }

  /** Rounding down does not go below a whole number of units. */
  lemma UnitsBelow(size: nat, room: int, g: nat)
    requires g > 0 && size % g == 0
    ensures size <= room <==> size <= room / g * g
  {
    NT.DivMod(room, g);
    NT.DivMod(size, g);
    var q, r := room / g, size / g;
    if q < r { NT.MulMono(q + 1, r, g); }
    assert q * g == g * q && r * g == g * r && (q + 1) * g == q * g + g;
  }

  lemma WholeArena(ns: nat, g: nat)
    requires g > 0 && ns % g == 0
    ensures (ns + g + g) % g == 0
  {
    NT.DividesIntro(g, g, 1);
    MultipleSum(ns, g, g);
    MultipleSum(ns + g, g, g);
  }

  lemma StillFits(m: Memory, free: set<nat>, size: nat, less: nat)
    requires !NoFit(m, free, size) && less <= size
    ensures !NoFit(m, free, less)
  {
  }

  lemma RoundUp(x: nat, g: nat)
    requires g > 0
    ensures var r := (x + g - 1) / g * g; r >= x && r % g == 0 && r < x + g
  {
    NT.DivMod(x + g - 1, g);
    var q := (x + g - 1) / g;
    assert q * g == g * q;
    NT.DividesIntro(g, q * g, q);
  }

  lemma FitExists(m: Memory, free: set<nat>, size: nat, q: nat)
    requires BestFit(m, free, size, q)
    ensures !NoFit(m, free, size) && q < |m| && m[q].size >= size
  {
  }

  lemma HasCells(m: Memory, cells: seq<Cell>, chain: nat)
    requires Newest(m, cells, chain)
    ensures |cells| > 0 <==> chain != 0
  {
  }

  /** Where the newest arena begins and ends. */
  lemma NewestEnd(m: Memory, tails: seq<nat>, g: nat, cells: seq<Cell>, chain: nat)
    requires Tiled(m, tails, g, cells) && Newest(m, cells, chain) && |cells| > 0
    ensures chain < |m| && var e := cells[|cells|-1].addr; e == chain + m[chain].csize && 0 < e < |m| && cells[|cells|-1].kind == End && chain < e
    ensures forall x :: x in Taken(m, cells) || x in FreeSet(m, cells) ==> 0 < x < cells[|cells|-1].addr && x != chain
  {
    var n := |cells| - 1;
    assert CellOk(m, g, cells[n]);
    var j := LeaderAt(cells);
    assert j < n;
    Rising(m, tails, g, cells, j, n);
    forall x | x in Taken(m, cells) || x in FreeSet(m, cells) ensures 0 < x < cells[n].addr && x != chain {
      var i :| 0 <= i < |cells| && cells[i].addr == x && cells[i].kind == Block;
      assert CellOk(m, g, cells[i]);
      Rising(m, tails, g, cells, i, n);
      Others(m, tails, g, cells, i, j);
    }
  }

  /** The three headers that change when an arena goes on. */
  ghost predicate GoesOn(m0: Memory, m: Memory, tails0: seq<nat>, tails: seq<nat>, e: nat, n: nat, chain: nat)
  {
    && e + n < |m0| == |tails0| && chain < e && tails == tails0[e + n := e]
    && m == m0[e := m0[e].(magic := MAGIC_A, size := n)][e + n := m0[e+n].(magic := MAGIC_E)][chain := m0[chain].(csize := m0[chain].csize + n)]
  }

  lemma ExtendDone(m0: Memory, m: Memory, tails0: seq<nat>, tails: seq<nat>, g: nat, cells: seq<Cell>, n: nat, chain: nat)
    requires Tiled(m0, tails0, g, cells) && Newest(m0, cells, chain) && |cells| > 0 && n > 0 && n % g == 0 && g > 0
    requires GoesOn(m0, m, tails0, tails, cells[|cells|-1].addr, n, chain)
    ensures var cs, e := ExtendedCells(cells, n), cells[|cells|-1].addr;
      && Tiled(m, tails, g, cs) && Newest(m, cs, chain) && FreeSet(m, cs) == FreeSet(m0, cells)
      && Taken(m, cs) == Taken(m0, cells) + {e} && Used(m, cs) == Used(m0, cells) + n
  {
    var e := cells[|cells|-1].addr;
    NewestEnd(m0, tails0, g, cells, chain);
    forall i | 0 <= i < |cells| - 1 ensures Unchanged(m0, m, cells[i]) {
      assert CellOk(m0, g, cells[i]);
      Rising(m0, tails0, g, cells, i, |cells| - 1);
    }
    assert Extended(m0, m, tails0, tails, g, cells, n);
    hide Tiled, Newest, Extended, FreeSet, Taken, Used, ExtendedCells, GoesOn;
    ExtendedTiled(m0, m, tails0, tails, g, cells, n);
    ExtendedMakes(m0, m, tails0, tails, g, cells, n);
    Longer(m0, m, tails0, tails, e, n, chain);
    NewestExtended(m0, m, tails0, tails, g, cells, n, chain);
  }

  lemma Longer(m0: Memory, m: Memory, tails0: seq<nat>, tails: seq<nat>, e: nat, n: nat, chain: nat)
    requires GoesOn(m0, m, tails0, tails, e, n, chain) && n > 0
    ensures chain < |m0| && chain < |m| && m[chain].csize == m0[chain].csize + n
  {
  }

  lemma ArenaBlock(m: Memory, tails: seq<nat>, t: nat, g: nat, s: nat, ns: nat)
    requires ArenaMade(m, tails, t, g, s, ns)
    ensures t + g < |m| && m[t+g].magic == MAGIC_A && m[t+g].size == s
  {
  }

  /** Memory from t on is free for an arena of ns that begins with a block of size s. */
  ghost predicate Spans(m: Memory, tails: seq<nat>, free: set<nat>, t: nat, g: nat, s: nat, ns: nat)
  {
    0 < t && t + g + ns < |m| == |tails| && g > 0 && 0 < s <= ns && forall a :: a in free ==> 0 < a < t
  }

  /** The leader of an arena and its first block. */
  ghost predicate Headed(m: Memory, tails: seq<nat>, t: nat, g: nat, s: nat)
  {
    && t + g < |m| && t + g + s < |tails| && t < |m|
    && m[t].magic == MAGIC_E && m[t].size == g && tails[t+g] == t
    && m[t+g].magic == MAGIC_A && m[t+g].size == s && tails[t+g+s] == t + g
  }

  ghost predicate SameBelow(m: Memory, m': Memory, t: nat)
  {
    |m'| == |m| && forall x :: 0 <= x < t && x < |m| ==> SameBlock(m[x], m'[x])
  }

  lemma RestDone(m0: Memory, m1: Memory, m: Memory, t: nat, q: nat)
    requires Kept(m1, m) && |m0| == |m1| && t <= q < |m0| && forall x :: 0 <= x < |m0| && x != q ==> m1[x] == m0[x]
    ensures SameBelow(m0, m, t)
  {
    forall x | 0 <= x < t && x < |m0| ensures SameBlock(m0[x], m[x]) {
      assert SameBlock(m1[x], m[x]);
    }
  }

  /** The cells of the pool and those of a new arena. */
  lemma ArenaDone(m0: Memory, m: Memory, tails0: seq<nat>, tails: seq<nat>, g: nat, cells: seq<Cell>, t: nat, s: nat, ns: nat)
    requires Tiled(m0, tails0, g, cells) && (|cells| > 0 ==> cells[|cells|-1].addr + g <= t) && g > 0
    requires |m| == |m0| == |tails0| == |tails| && ArenaMade(m, tails, t, g, s, ns)
    requires forall x :: 0 <= x < t && x < |m| ==> SameBlock(m0[x], m[x])
    requires forall x :: 0 <= x < t && x < |m| ==> tails[x] == tails0[x]
    ensures var cs := cells + Arena(t, g, s, ns);
      && Tiled(m, tails, g, cs) && FreeSet(m, cs) == FreeSet(m0, cells) + (if ns > s then {t + g + s} else {})
      && Taken(m, cs) == Taken(m0, cells) + {t + g} && Used(m, cs) == Used(m0, cells) + s
  {
    AllBelow(m0, tails0, g, cells, t);
    forall i | 0 <= i < |cells| ensures Unchanged(m0, m, cells[i]) {
      assert CellOk(m0, g, cells[i]) && SameBlock(m0[cells[i].addr], m[cells[i].addr]);
    }
    ArenaTiled(m, tails, t, g, s, ns);
    ArenaMakes(m, tails, t, g, s, ns);
    AfterTiled(m0, m, tails0, tails, g, cells, Arena(t, g, s, ns), t);
    AfterMakes(m0, m, tails0, tails, g, cells, Arena(t, g, s, ns), t);
  }

  /** Cells lie below new memory. */
  lemma AllBelow(m: Memory, tails: seq<nat>, g: nat, cells: seq<Cell>, t: nat)
    requires Tiled(m, tails, g, cells) && (|cells| > 0 ==> cells[|cells|-1].addr + g <= t)
    ensures forall i :: 0 <= i < |cells| ==> cells[i].addr <= t && (g > 0 ==> cells[i].addr < t)
    ensures forall x :: x in Taken(m, cells) || x in FreeSet(m, cells) ==> x <= t && (g > 0 ==> x < t)
  {
    forall i | 0 <= i < |cells| ensures cells[i].addr <= t && (g > 0 ==> cells[i].addr < t) {
      if i < |cells| - 1 { Rising(m, tails, g, cells, i, |cells| - 1); }
    }
  }

  /** A block left whole, since little of it is too much. */
  predicate Snug(was: nat, now: nat, size: nat)
  {
    now == was && size <= now && now - size < size / 4 && now - size < 0x8000
  }

  lemma FitIsFree(m: Memory, free: set<nat>, size: nat, q: nat)
    requires BestFit(m, free, size, q)
    ensures q in free && q < |m| && m[q].size >= size
  {
  }

  /** The block after the head of a ring is of the same size, which is the best fit there can be. */
  lemma FirstOfRing(m: Memory, p: nat, t: Tree, h: nat)
    requires Rep(m, p, 0, t) && Apart(t) && IsHead(t, h)
    ensures h < |m| && m[h].fwd in Addrs(t) && m[h].fwd < |m| && m[m[h].fwd].size == m[h].size && m[h].fwd != 0
    ensures BestFit(m, Addrs(t), m[h].size, m[h].fwd)
  {
    HeadIn(t, h);
    HeadRep(m, p, 0, t, h);
    Bounds(m, p, 0, t);
    var u := Sub(t, h);
    assert Member(m, u.size, u.ring, 0) && Member(m, u.size, u.ring, Next(0, |u.ring|));
    assert m[h].fwd in Elems(u.ring);
  }

  /** After block k was taken there is nothing free after it. */
  lemma OnlyHere(m: Memory, m': Memory, tails: seq<nat>, g: nat, cells: seq<Cell>, k: nat)
    requires Tiled(m, tails, g, cells) && k + 1 < |cells| && !IsFree(m, cells[k+1]) && cells[k].kind == Block && cells[k].addr < |m|
    requires var q := cells[k].addr; Kept(m[q := m[q].(magic := MAGIC_A)], m')
    ensures NoFreeAfter(m', cells, cells[k].addr)
  {
    var q := cells[k].addr;
    var m1 := m[q := m[q].(magic := MAGIC_A)];
    forall i | 0 <= i < |cells| && i != k ensures cells[i].addr != q {
      Others(m, tails, g, cells, k, i);
    }
    assert CellOk(m, g, cells[k+1]);
    assert SameBlock(m1[cells[k+1].addr], m'[cells[k+1].addr]);
  }

  lemma NoneAfter(m: Memory, cells: seq<Cell>, k: nat, b: nat)
    requires NoFreeAfter(m, cells, b) && k + 1 < |cells| && cells[k].addr == b
    ensures !IsFree(m, cells[k+1])
  {
    assert !IsFree(m, cells[Succ(k)]);
  }

  /** The block just before block k, if it is free. */
  lemma FreeBefore(m: Memory, tails: seq<nat>, g: nat, cells: seq<Cell>, k: nat)
    requires Tiled(m, tails, g, cells) && 0 < k && k + 1 < |cells| && cells[k].kind == Block && IsTaken(m, cells[k]) && |tails| == |m|
    ensures var a := cells[k-1].addr; 0 < a < |m| && (m[a].magic == MAGIC_F ==>
      cells[k-1].kind == Block && IsFree(m, cells[k-1]) && a in FreeSet(m, cells) && a != cells[k].addr && a !in Taken(m, cells) && Weight(m, cells[k-1]) == 0)
    ensures m[cells[k-1].addr].magic != MAGIC_F ==> !IsFree(m, cells[k-1])
  {
    assert CellOk(m, g, cells[k-1]);
    forall i | 0 <= i < |cells| && i != k - 1 ensures cells[i].addr != cells[k-1].addr {
      Others(m, tails, g, cells, k - 1, i);
    }
  }

  lemma AddedBack(m: Memory, c: nat)
    requires c < |m| && m[c].magic == MAGIC_F
    ensures m[c := m[c].(magic := MAGIC_F)] == m
  {
  }

  /** A block without free neighbours is freed. */
  lemma MarkedFree(m: Memory, tails: seq<nat>, g: nat, cells: seq<Cell>, k: nat, chain: nat)
    requires Tiled(m, tails, g, cells) && Newest(m, cells, chain) && 0 < k && k + 1 < |cells| && IsTaken(m, cells[k])
    requires !IsFree(m, cells[k-1]) && !IsFree(m, cells[k+1])
    ensures var a := cells[k].addr; var m' := m[a := m[a].(magic := MAGIC_F)];
      && Tiled(m', tails, g, cells) && Newest(m', cells, chain)
      && FreeSet(m', cells) == FreeSet(m, cells) + {a} && Taken(m', cells) == Taken(m, cells) - {a}
      && Used(m', cells) == Used(m, cells) - m[a].size
  {
    var a := cells[k].addr;
    var m' := m[a := m[a].(magic := MAGIC_F)];
    forall i | 0 <= i < |cells| && i != k ensures Unchanged(m, m', cells[i]) {
      assert CellOk(m, g, cells[i]);
      Others(m, tails, g, cells, k, i);
    }
    MarkBlock(m, m', tails, g, cells, k);
    NewestSame(m, m', cells, cells, chain);
  }

  lemma UsedAtLeast(m: Memory, cells: seq<Cell>, k: nat)
    requires k < |cells|
    ensures Used(m, cells) >= Weight(m, cells[k])
  {
    assert cells == cells[..k] + [cells[k]] + cells[k+1..];
    UsedJoin(m, cells[..k] + [cells[k]], cells[k+1..]);
    UsedJoin(m, cells[..k], [cells[k]]);
    UsedOne(m, cells[k]);
  }

  lemma BothThere(m: Memory, tails: seq<nat>, g: nat, cells: seq<Cell>, k: nat)
    requires Tiled(m, tails, g, cells) && k + 2 < |cells| && cells[k].kind == Block && cells[k+1].kind == Block && |tails| == |m|
    ensures var a, d := cells[k].addr, cells[k+1].addr; a < d < |m| && a + m[a].size + m[d].size < |tails|
  {
    assert Joint(m, tails, g, cells[k], cells[Succ(k)]) && Joint(m, tails, g, cells[k+1], cells[Succ(k+1)]);
    assert CellOk(m, g, cells[k+1]);
  }

  /** Headers that keep their magic and size weigh the same, and are as free. */
  lemma AfterKept(m: Memory, m': Memory, cells: seq<Cell>, k: nat)
    requires Kept(m, m')
    ensures forall i :: 0 <= i < |cells| ==> IsFree(m', cells[i]) == IsFree(m, cells[i]) && Weight(m', cells[i]) == Weight(m, cells[i])
  {
    forall i | 0 <= i < |cells| ensures IsFree(m', cells[i]) == IsFree(m, cells[i]) && Weight(m', cells[i]) == Weight(m, cells[i]) {
      if cells[i].addr < |m| { assert SameBlock(m[cells[i].addr], m'[cells[i].addr]); }
    }
  }

  /** Only cell k has the address of cell k. */
  lemma OnlyNext(m: Memory, tails: seq<nat>, g: nat, cells: seq<Cell>, k: nat)
    requires Tiled(m, tails, g, cells) && k + 1 < |cells|
    ensures !IsFree(m, cells[k+1]) ==> NoFreeAfter(m, cells, cells[k].addr)
  {
    forall i | 0 <= i < |cells| && i != k ensures cells[i].addr != cells[k].addr {
      Others(m, tails, g, cells, k, i);
    }
  }

  lemma AllInBounds(m: Memory, tails: seq<nat>, g: nat, cells: seq<Cell>)
    requires Tiled(m, tails, g, cells)
    ensures forall x :: x in Taken(m, cells) || x in FreeSet(m, cells) ==> 0 < x < |m|
  {
    forall x | x in Taken(m, cells) || x in FreeSet(m, cells) ensures 0 < x < |m| {
      var i :| 0 <= i < |cells| && cells[i].addr == x;
      assert CellOk(m, g, cells[i]);
    }
  }

  /** A free header after block k is that of a free block. */
  lemma FreeNext(m: Memory, tails: seq<nat>, g: nat, cells: seq<Cell>, k: nat)
    requires Tiled(m, tails, g, cells) && k + 1 < |cells| && cells[k+1].addr < |m| && m[cells[k+1].addr].magic == MAGIC_F
    ensures k + 2 < |cells| && cells[k+1].kind == Block && IsFree(m, cells[k+1]) && cells[k+1].addr in FreeSet(m, cells)
    ensures !IsFree(m, cells[k+2]) && cells[k+1].addr !in Taken(m, cells)
    ensures cells[k+1].addr + m[cells[k+1].addr].size == cells[k+2].addr < |tails|
  {
    assert CellOk(m, g, cells[k+1]);
    assert Joint(m, tails, g, cells[k+1], cells[Succ(k+1)]);
    forall i | 0 <= i < |cells| && i != k + 1 ensures cells[i].addr != cells[k+1].addr {
      Others(m, tails, g, cells, k + 1, i);
    }
  }

  lemma MergeLeaves(m: Memory, m': Memory, tails: seq<nat>, tails': seq<nat>, g: nat, cells: seq<Cell>, k: nat)
    requires Tiled(m, tails, g, cells) && |tails| == |m| && k + 2 < |cells|
    requires cells[k].kind == Block && cells[k+1].kind == Block && cells[k].addr < |m| && cells[k+1].addr < |m|
    requires |m'| == |m| && forall x :: 0 <= x < |m| && x != cells[k].addr && x != cells[k+1].addr ==> m'[x] == m[x]
    ensures forall i :: 0 <= i < |cells| && i != k && i != k + 1 ==> Unchanged(m, m', cells[i])
  {
    forall i | 0 <= i < |cells| && i != k && i != k + 1 ensures Unchanged(m, m', cells[i]) {
      assert CellOk(m, g, cells[i]);
      Others(m, tails, g, cells, k, i);
      Others(m, tails, g, cells, k + 1, i);
    }
  }

  /** Block k takes in the free one after it, which is out of the tree. */
  lemma Merged(m: Memory, m': Memory, tails: seq<nat>, tails': seq<nat>, g: nat, cells: seq<Cell>, k: nat, chain: nat)
    requires Tiled(m, tails, g, cells) && Newest(m, cells, chain) && |tails| == |m| && k + 2 < |cells|
    requires cells[k].kind == Block && cells[k+1].kind == Block && !IsFree(m, cells[k+2]) && cells[k].addr < |m| && cells[k+1].addr < |m|
    requires var a, b := cells[k].addr, cells[k+1].addr;
      && (m' == m[b := m[b].(magic := NOMAGIC)][a := m[a].(size := m[a].size + m[b].size)]) && a != b
      && a + m'[a].size < |tails| && tails' == tails[a + m'[a].size := a]
    ensures Tiled(m', tails', g, MergedCells(cells, k)) && Newest(m', MergedCells(cells, k), chain)
    ensures var b := cells[k+1].addr; var cs := MergedCells(cells, k);
      && FreeSet(m', cs) == FreeSet(m, cells) - {b} && Taken(m', cs) == Taken(m, cells) - {b}
      && Used(m', cs) == Used(m, cells) - Weight(m, cells[k]) - Weight(m, cells[k+1]) + Weight(m', cells[k])
    ensures !IsFree(m', cells[k+2]) && MergedCells(cells, k)[k] == cells[k] && MergedCells(cells, k)[k+1] == cells[k+2]
  {
    hide Tiled, Newest, FreeSet, Taken, Used, Weight;
    MergeLeaves(m, m', tails, tails', g, cells, k);
    assert Unchanged(m, m', cells[k+2]);
    MergeTiled(m, m', tails, tails', g, cells, k);
    MergeMakes(m, m', tails, tails', g, cells, k);
    NewestMerge(m, m', tails, tails', cells, k, chain);
  }

  /** The cell of a block in use. */
  lemma TakenAt(m: Memory, tails: seq<nat>, g: nat, cells: seq<Cell>, q: nat) returns (k: nat)
    requires Tiled(m, tails, g, cells) && q in Taken(m, cells) && |tails| == |m|
    ensures 0 < k && k + 1 < |cells| && cells[k] == Cell(q, Block) && IsTaken(m, cells[k]) && q !in FreeSet(m, cells)
    ensures 0 < q < |m| && q + m[q].size == cells[k+1].addr < |m| && m[q].size > 0 && m[q].size % g == 0 && g > 0
    ensures q < |tails| && tails[q] == cells[k-1].addr && cells[k-1].kind != End
  {
    var i :| 0 <= i < |cells| && IsTaken(m, cells[i]) && cells[i].addr == q;
    k := i;
    assert Joint(m, tails, g, cells[k], cells[Succ(k)]) && Joint(m, tails, g, cells[k-1], cells[Succ(k-1)]);
    assert CellOk(m, g, cells[k]) && CellOk(m, g, cells[k+1]);
    forall j | 0 <= j < |cells| && j != k ensures cells[j].addr != q {
      Others(m, tails, g, cells, k, j);
    }
  }

  /** What comes after the block q is not free. */
  ghost predicate NoFreeAfter(m: Memory, cells: seq<Cell>, q: nat)
  {
    forall k :: 0 <= k < |cells| && cells[k].addr == q && k + 1 < |cells| ==> !IsFree(m, cells[Succ(k)])
  }

  /** No header is inside a block. */
  lemma NoCellInside(m: Memory, tails: seq<nat>, g: nat, cells: seq<Cell>, k: nat, t: nat)
    requires Tiled(m, tails, g, cells) && k + 1 < |cells| && cells[k].addr < t < cells[k+1].addr
    ensures t !in FreeSet(m, cells) && t !in Taken(m, cells)
  {
    forall i | 0 <= i < |cells| ensures cells[i].addr != t {
      if i < k { Rising(m, tails, g, cells, i, k); }
      if i > k + 1 { Rising(m, tails, g, cells, k + 1, i); }
    }
  }

  /** What a split makes of the blocks. */
  lemma Splits(m0: Memory, m1: Memory, m: Memory, tails: seq<nat>, tails': seq<nat>, g: nat, cells: seq<Cell>, k: nat, s: nat, chain: nat)
    requires Tiled(m0, tails, g, cells) && Newest(m0, cells, chain)
    requires 0 < k && k + 1 < |cells| && IsTaken(m0, cells[k]) && !IsFree(m0, cells[k+1]) && |tails| == |m0|
    requires var q := cells[k].addr; var S := m0[q].size; var t := q + s;
      && q + S == cells[k+1].addr < |m0| && 0 < s < S && s % g == 0 && g > 0 && t < |m0|
      && m1 == m0[q := m0[q].(size := s)][t := m0[t].(size := S - s)] && tails' == tails[t := q][q + S := t]
      && Kept(m1[t := m1[t].(magic := MAGIC_F)], m)
    ensures var t := cells[k].addr + s; var cs := SplitCells(cells, k, t);
      && Tiled(m, tails', g, cs) && Newest(m, cs, chain) && FreeSet(m, cs) == FreeSet(m0, cells) + {t} && Taken(m, cs) == Taken(m0, cells)
      && Used(m, cs) == Used(m0, cells) - m0[cells[k].addr].size + s
    ensures forall x :: x in Taken(m0, cells) && x != cells[k].addr ==> x < |m0| && SameBlock(m0[x], m[x])
    ensures |m| == |m0| && m[cells[k].addr].size == s && m[cells[k].addr].magic == m0[cells[k].addr].magic
  {
    hide Tiled, Newest, FreeSet, Taken, Used, SplitCells;
    SplitDone(m0, m1, m, tails, tails', g, cells, k, s);
    SplitTiled(m0, m, tails, tails', g, cells, k, s);
    SplitMakes(m0, m, tails, tails', g, cells, k, s);
    NewestSplit(m0, m, cells, k, cells[k].addr + s, chain);
  }

  /** The headers after a split. */
  lemma SplitDone(m0: Memory, m1: Memory, m: Memory, tails: seq<nat>, tails': seq<nat>, g: nat, cells: seq<Cell>, k: nat, s: nat)
    requires Tiled(m0, tails, g, cells) && 0 < k && k + 1 < |cells| && IsTaken(m0, cells[k]) && !IsFree(m0, cells[k+1]) && |tails| == |m0|
    requires var q := cells[k].addr; var S := m0[q].size; var t := q + s;
      && q + S == cells[k+1].addr < |m0| && 0 < s < S && s % g == 0 && g > 0 && t < |m0|
      && m1 == m0[q := m0[q].(size := s)][t := m0[t].(size := S - s)] && tails' == tails[t := q][q + S := t]
      && Kept(m1[t := m1[t].(magic := MAGIC_F)], m)
    ensures SplitAt(m0, m, tails, tails', g, cells, k, s) && SameEnds(m0, m)
    ensures forall x :: x in Taken(m0, cells) && x != cells[k].addr ==> x < |m0| && SameBlock(m0[x], m[x])
  {
    var q, t := cells[k].addr, cells[k].addr + s;
    var m2 := m1[t := m1[t].(magic := MAGIC_F)];
    NoCellInside(m0, tails, g, cells, k, t);
    forall i | 0 <= i < |cells| && i != k ensures Unchanged(m0, m, cells[i]) {
      assert CellOk(m0, g, cells[i]);
      Others(m0, tails, g, cells, k, i);
      if i < k { Rising(m0, tails, g, cells, i, k); } else if i > k + 1 { Rising(m0, tails, g, cells, k + 1, i); }
      assert SameBlock(m2[cells[i].addr], m[cells[i].addr]);
    }
    assert SameBlock(m2[q], m[q]) && SameBlock(m2[t], m[t]);
    forall x | 0 <= x < |m0| ensures m[x].csize == m0[x].csize {
      assert SameBlock(m2[x], m[x]);
    }
    forall x | x in Taken(m0, cells) && x != q ensures x < |m0| && SameBlock(m0[x], m[x]) {
      assert x != t;
      assert SameBlock(m2[x], m[x]);
    }
  }

  /** No block of the set is large enough. */
  ghost predicate NoFit(m: Memory, free: set<nat>, size: nat)
  {
    forall a :: a in free ==> a < |m| && m[a].size < size
  }

  /** q is the smallest block that is large enough. */
  ghost predicate BestFit(m: Memory, free: set<nat>, size: nat, q: nat)
  {
    && q in free && q < |m| && m[q].size >= size
    && forall a :: a in free && a < |m| && m[a].size >= size ==> m[q].size <= m[a].size
  }

  lemma FitsFirst(m: Memory, p: nat, t: Tree, size: nat)
    requires Rep(m, p, 0, t)
    ensures Fits(m, t, size, t, 0) && (p == 0 ==> t.Leaf?) && (p != 0 ==> IsHead(t, p) && Sub(t, p) == t)
  {
    Bounds(m, p, 0, t);
  }

  lemma FitsLast(m: Memory, p: nat, t: Tree, size: nat, q: nat)
    requires Rep(m, p, 0, t) && Apart(t) && Fits(m, t, size, Leaf, q)
    ensures q != 0 ==> BestFit(m, Addrs(t), size, q) && m[q].size > size
    ensures q == 0 ==> NoFit(m, Addrs(t), size)
  {
    Bounds(m, p, 0, t);
    if q != 0 { HeadIn(t, q); }
  }

  /** The cell of a free block. */
  lemma FreeAt(m: Memory, tails: seq<nat>, g: nat, cells: seq<Cell>, b: nat) returns (k: nat)
    requires Tiled(m, tails, g, cells) && b in FreeSet(m, cells)
    ensures k + 1 < |cells| && cells[k] == Cell(b, Block) && IsFree(m, cells[k]) && b !in Taken(m, cells)
    ensures k > 0 && !IsFree(m, cells[k-1]) && !IsFree(m, cells[k+1])
  {
    var i :| 0 <= i < |cells| && IsFree(m, cells[i]) && cells[i].addr == b;
    k := i;
    assert Joint(m, tails, g, cells[k], cells[Succ(k)]) && Joint(m, tails, g, cells[k-1], cells[Succ(k-1)]);
    forall j | 0 <= j < |cells| && j != k ensures cells[j].addr != b {
      Others(m, tails, g, cells, k, j);
    }
  }

  lemma TiledKept(m: Memory, m': Memory, tails: seq<nat>, g: nat, cells: seq<Cell>, chain: nat)
    requires Tiled(m, tails, g, cells) && Newest(m, cells, chain) && Kept(m, m')
    ensures Tiled(m', tails, g, cells) && Newest(m', cells, chain)
    ensures FreeSet(m', cells) == FreeSet(m, cells) && Taken(m', cells) == Taken(m, cells) && Used(m', cells) == Used(m, cells)
  {
    forall i | 0 <= i < |cells| ensures Unchanged(m, m', cells[i]) {
      assert CellOk(m, g, cells[i]);
    }
    TiledSame(m, m', tails, g, cells);
    NewestSame(m, m', cells, cells, chain);
  }

  /** A block's magic is set. */
  lemma Marked(m: Memory, m': Memory, tails: seq<nat>, g: nat, cells: seq<Cell>, k: nat, chain: nat)
    requires Tiled(m, tails, g, cells) && Newest(m, cells, chain) && k < |cells| && cells[k].kind == Block && cells[k].addr < |m|
    requires var a := cells[k].addr; m' == m[a := m[a].(magic := MAGIC_A)]
    ensures var a := cells[k].addr;
      && Tiled(m', tails, g, cells) && Newest(m', cells, chain)
      && FreeSet(m', cells) == FreeSet(m, cells) - {a} && Taken(m', cells) == Taken(m, cells) + {a}
      && Used(m', cells) == Used(m, cells) - Weight(m, cells[k]) + m[a].size
  {
    forall i | 0 <= i < |cells| && i != k ensures Unchanged(m, m', cells[i]) {
      assert CellOk(m, g, cells[i]);
      Others(m, tails, g, cells, k, i);
    }
    MarkBlock(m, m', tails, g, cells, k);
    NewestSame(m, m', cells, cells, chain);
  }

  lemma InTree(m: Memory, t: nat, r: Tree, f: nat, rp: nat)
    requires OnLeft(m, t, r, f, rp)
    ensures rp < |m| && IsHead(r, rp) && rp in Addrs(r)
  {
    HeadIn(r, rp);
  }
}
