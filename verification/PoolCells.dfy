/** How the blocks of a pool tile its arenas (9/alloc.c). */
module PoolCells {
  import opened PoolTree
  import NT = NumberTheory

  /** An arena is a leader, blocks, and an end mark. */
  datatype Kind = Leader | Block | End

  datatype Cell = Cell(addr: nat, kind: Kind)

  predicate IsFree(m: Memory, c: Cell)
  {
    c.kind == Block && c.addr < |m| && m[c.addr].magic == MAGIC_F
  }

  /** A header in its place; g is the size all sizes are multiples of. */
  ghost predicate CellOk(m: Memory, g: nat, c: Cell)
  {
    && 0 < c.addr < |m|
    && (c.kind == Block ==> m[c.addr].magic in {MAGIC_A, MAGIC_I, MAGIC_F} && m[c.addr].size > 0 && g > 0 && m[c.addr].size % g == 0)
    && (c.kind != Block ==> m[c.addr].magic == MAGIC_E)
    && (c.kind == Leader ==> m[c.addr].size == g > 0)
  }

  /** Two headers next to each other: the first one's tail, before the second, points back to it. */
  ghost predicate Joint(m: Memory, tails: seq<nat>, g: nat, c: Cell, d: Cell)
  {
    && c.addr < d.addr < |tails| && c.addr < |m|
    && (c.kind == End <==> d.kind == Leader)
    && (c.kind == End ==> c.addr + g <= d.addr)
    && (c.kind != End ==> d.addr == c.addr + m[c.addr].size && tails[d.addr] == c.addr)
    && !(IsFree(m, c) && IsFree(m, d))
  }

  /** The arenas are tiled, and no two free blocks are neighbours. */
  ghost predicate Tiled(m: Memory, tails: seq<nat>, g: nat, cells: seq<Cell>)
  {
    && (forall i :: 0 <= i < |cells| ==> CellOk(m, g, cells[i]))
    && (forall i :: 0 <= i < |cells| - 1 ==> Joint(m, tails, g, cells[i], cells[Succ(i)]))
    && (|cells| > 0 ==> cells[0].kind == Leader && cells[|cells|-1].kind == End)
  }

  function Succ(i: nat): nat
  {
    i + 1
  }

  lemma {:induction false} Rising(m: Memory, tails: seq<nat>, g: nat, cells: seq<Cell>, i: nat, j: nat)
    requires Tiled(m, tails, g, cells) && i < j < |cells|
    ensures cells[i].addr < cells[j].addr
    decreases j - i
  {
    assert Joint(m, tails, g, cells[j-1], cells[Succ(j-1)]);
    if i + 1 < j {
      Rising(m, tails, g, cells, i, j - 1);
    }
  }

  function FreeSet(m: Memory, cells: seq<Cell>): set<nat>
  {
    set i | 0 <= i < |cells| && IsFree(m, cells[i]) :: cells[i].addr
  }

  predicate IsTaken(m: Memory, c: Cell)
  {
    c.kind == Block && c.addr < |m| && m[c.addr].magic != MAGIC_F
  }

  /** Blocks in use. */
  function Taken(m: Memory, cells: seq<Cell>): set<nat>
  {
    set i | 0 <= i < |cells| && IsTaken(m, cells[i]) :: cells[i].addr
  }

  /** Blocks do not overlap, and neighbours are not both free. */
  lemma BlocksApart(m: Memory, tails: seq<nat>, g: nat, cells: seq<Cell>, a: nat, b: nat)
    requires Tiled(m, tails, g, cells) && a < b
    requires a in Taken(m, cells) + FreeSet(m, cells) && b in Taken(m, cells) + FreeSet(m, cells)
    ensures b < |m| && a + m[a].size <= b
    ensures a + m[a].size == b ==> m[a].magic != MAGIC_F || m[b].magic != MAGIC_F
  {
    var i :| 0 <= i < |cells| && cells[i].addr == a && cells[i].kind == Block;
    var j :| 0 <= j < |cells| && cells[j].addr == b && cells[j].kind == Block;
    assert CellOk(m, g, cells[i]) && CellOk(m, g, cells[j]);
    if j < i { Rising(m, tails, g, cells, j, i); }
    assert Joint(m, tails, g, cells[i], cells[Succ(i)]);
    if i + 1 < j { Rising(m, tails, g, cells, i + 1, j); }
  }

  function Weight(m: Memory, c: Cell): nat
  {
    if IsTaken(m, c) then m[c.addr].size else 0
  }

  /** The size of all blocks in use. */
  function Used(m: Memory, cells: seq<Cell>): nat
  {
    if |cells| == 0 then 0 else Used(m, cells[..|cells|-1]) + Weight(m, cells[|cells|-1])
  }

  lemma {:induction false} UsedJoin(m: Memory, x: seq<Cell>, y: seq<Cell>)
    ensures Used(m, x + y) == Used(m, x) + Used(m, y)
  {
    if |y| == 0 {
      assert x + y == x;
    } else {
      assert (x + y)[..|x|+|y|-1] == x + y[..|y|-1];
      UsedJoin(m, x, y[..|y|-1]);
    }
  }

  lemma UsedOne(m: Memory, c: Cell)
    ensures Used(m, [c]) == Weight(m, c)
  {
    assert [c][..0] == [];
  }

  /** The header of c is as it was. */
  ghost predicate Unchanged(m: Memory, m': Memory, c: Cell)
  {
    c.addr < |m| == |m'| && var h, h' := m[c.addr], m'[c.addr]; h'.magic == h.magic && h'.size == h.size
  }

  lemma {:induction false} UsedSame(m: Memory, m': Memory, x: seq<Cell>)
    requires forall i :: 0 <= i < |x| ==> Unchanged(m, m', x[i])
    ensures Used(m', x) == Used(m, x)
  {
    if |x| > 0 {
      UsedSame(m, m', x[..|x|-1]);
      assert Unchanged(m, m', x[|x|-1]);
    }
  }

  lemma TiledSame(m: Memory, m': Memory, tails: seq<nat>, g: nat, cells: seq<Cell>)
    requires Tiled(m, tails, g, cells) && forall i :: 0 <= i < |cells| ==> Unchanged(m, m', cells[i])
    ensures Tiled(m', tails, g, cells) && FreeSet(m', cells) == FreeSet(m, cells) && Taken(m', cells) == Taken(m, cells)
    ensures Used(m', cells) == Used(m, cells)
  {
    UsedSame(m, m', cells);
    forall i | 0 <= i < |cells| ensures CellOk(m', g, cells[i]) && IsFree(m', cells[i]) == IsFree(m, cells[i]) && IsTaken(m', cells[i]) == IsTaken(m, cells[i]) {
      assert Unchanged(m, m', cells[i]) && CellOk(m, g, cells[i]);
    }
    forall i | 0 <= i < |cells| - 1 ensures Joint(m', tails, g, cells[i], cells[Succ(i)]) {
      assert Joint(m, tails, g, cells[i], cells[Succ(i)]) && Unchanged(m, m', cells[i]) && Unchanged(m, m', cells[Succ(i)]);
    }
  }

  /** The cell of a block. */
  ghost function At(cells: seq<Cell>, a: nat): (k: nat)
    requires exists i :: 0 <= i < |cells| && cells[i].addr == a
    ensures k < |cells| && cells[k].addr == a
  {
    var i :| 0 <= i < |cells| && cells[i].addr == a;
    i
  }

  /** Other cells have other addresses. */
  lemma Others(m: Memory, tails: seq<nat>, g: nat, cells: seq<Cell>, k: nat, i: nat)
    requires Tiled(m, tails, g, cells) && k < |cells| && i < |cells| && i != k
    ensures cells[i].addr != cells[k].addr
  {
    if i < k { Rising(m, tails, g, cells, i, k); } else { Rising(m, tails, g, cells, k, i); }
  }

  /** Every header but that of cell k is as it was. */
  ghost predicate OnlyAt(m: Memory, m': Memory, cells: seq<Cell>, k: nat)
    requires k < |cells|
  {
    |m'| == |m| && forall i :: 0 <= i < |cells| && i != k ==> Unchanged(m, m', cells[i])
  }

  /** Block k and its surroundings in the sums and sets. */
  lemma UsedAt(m: Memory, m': Memory, cells: seq<Cell>, k: nat)
    requires k < |cells| && OnlyAt(m, m', cells, k)
    ensures Used(m', cells) == Used(m, cells) - Weight(m, cells[k]) + Weight(m', cells[k])
  {
    var x, y := cells[..k], cells[k+1..];
    assert cells == x + [cells[k]] + y;
    UsedJoin(m, x + [cells[k]], y);
    UsedJoin(m, x, [cells[k]]);
    UsedJoin(m', x + [cells[k]], y);
    UsedJoin(m', x, [cells[k]]);
    UsedOne(m, cells[k]);
    UsedOne(m', cells[k]);
    forall i | 0 <= i < |x| ensures Unchanged(m, m', x[i]) { assert x[i] == cells[i]; }
    forall i | 0 <= i < |y| ensures Unchanged(m, m', y[i]) { assert y[i] == cells[k+1+i]; }
    UsedSame(m, m', x);
    UsedSame(m, m', y);
  }

  /** A neighbour of block k. */
  ghost predicate Beside(cells: seq<Cell>, k: nat, i: nat)
  {
    i < |cells| && (i + 1 == k || i == k + 1)
  }

  /** Block k is marked as in use, or as free if it has no free neighbour. */
  lemma MarkBlock(m: Memory, m': Memory, tails: seq<nat>, g: nat, cells: seq<Cell>, k: nat)
    requires Tiled(m, tails, g, cells) && k < |cells| && cells[k].kind == Block && OnlyAt(m, m', cells, k)
    requires var h, h' := m[cells[k].addr], m'[cells[k].addr]; h'.size == h.size && h'.magic in {MAGIC_A, MAGIC_F}
    requires m'[cells[k].addr].magic == MAGIC_F ==> forall i: nat :: Beside(cells, k, i) ==> !IsFree(m, cells[i])
    ensures Tiled(m', tails, g, cells)
    ensures var a := cells[k].addr; if m'[a].magic == MAGIC_F
      then FreeSet(m', cells) == FreeSet(m, cells) + {a} && Taken(m', cells) == Taken(m, cells) - {a}
      else FreeSet(m', cells) == FreeSet(m, cells) - {a} && Taken(m', cells) == Taken(m, cells) + {a}
    ensures Used(m', cells) == Used(m, cells) - Weight(m, cells[k]) + Weight(m', cells[k])
  {
    var a := cells[k].addr;
    UsedAt(m, m', cells, k);
    forall i | 0 <= i < |cells| ensures CellOk(m', g, cells[i]) {
      assert CellOk(m, g, cells[i]);
      assert i != k ==> Unchanged(m, m', cells[i]);
    }
    forall i | 0 <= i < |cells| - 1 ensures Joint(m', tails, g, cells[i], cells[Succ(i)]) {
      assert Joint(m, tails, g, cells[i], cells[Succ(i)]);
      assert i != k ==> Unchanged(m, m', cells[i]);
      assert i + 1 != k ==> Unchanged(m, m', cells[Succ(i)]);
      assert i + 1 == k ==> Beside(cells, k, i);
      assert i == k ==> Beside(cells, k, i + 1);
    }
    forall i | 0 <= i < |cells| && i != k
      ensures cells[i].addr != a && IsFree(m', cells[i]) == IsFree(m, cells[i]) && IsTaken(m', cells[i]) == IsTaken(m, cells[i])
    {
      Others(m, tails, g, cells, k, i);
      assert Unchanged(m, m', cells[i]);
    }
    SetsAt(m, m', cells, k);
  }

  lemma SetsAt(m: Memory, m': Memory, cells: seq<Cell>, k: nat)
    requires k < |cells| && cells[k].kind == Block && cells[k].addr < |m| == |m'|
    requires forall i :: 0 <= i < |cells| && i != k ==>
      cells[i].addr != cells[k].addr && IsFree(m', cells[i]) == IsFree(m, cells[i]) && IsTaken(m', cells[i]) == IsTaken(m, cells[i])
    ensures var a := cells[k].addr; if m'[a].magic == MAGIC_F
      then FreeSet(m', cells) == FreeSet(m, cells) + {a} && Taken(m', cells) == Taken(m, cells) - {a}
      else FreeSet(m', cells) == FreeSet(m, cells) - {a} && Taken(m', cells) == Taken(m, cells) + {a}
  {
    var a := cells[k].addr;
    assert IsFree(m', cells[k]) || IsTaken(m', cells[k]);
    forall x | x in FreeSet(m, cells) && x != a ensures x in FreeSet(m', cells) {
      var i :| 0 <= i < |cells| && IsFree(m, cells[i]) && cells[i].addr == x;
      assert IsFree(m', cells[i]);
    }
    forall x | x in Taken(m, cells) && x != a ensures x in Taken(m', cells) {
      var i :| 0 <= i < |cells| && IsTaken(m, cells[i]) && cells[i].addr == x;
      assert IsTaken(m', cells[i]);
    }
    forall x | x in FreeSet(m', cells) && x != a ensures x in FreeSet(m, cells) {
      var i :| 0 <= i < |cells| && IsFree(m', cells[i]) && cells[i].addr == x;
      assert IsFree(m, cells[i]);
    }
    forall x | x in Taken(m', cells) && x != a ensures x in Taken(m, cells) {
      var i :| 0 <= i < |cells| && IsTaken(m', cells[i]) && cells[i].addr == x;
      assert IsTaken(m, cells[i]);
    }
  }

  // ------------------------------------------------------ splitting and joining

  lemma SetsJoin(m: Memory, x: seq<Cell>, y: seq<Cell>)
    ensures FreeSet(m, x + y) == FreeSet(m, x) + FreeSet(m, y) && Taken(m, x + y) == Taken(m, x) + Taken(m, y)
  {
    var z := x + y;
    forall a | a in FreeSet(m, z) ensures a in FreeSet(m, x) + FreeSet(m, y) {
      var i :| 0 <= i < |z| && IsFree(m, z[i]) && z[i].addr == a;
      if i >= |x| { assert y[i-|x|] == z[i]; }
    }
    forall a | a in Taken(m, z) ensures a in Taken(m, x) + Taken(m, y) {
      var i :| 0 <= i < |z| && IsTaken(m, z[i]) && z[i].addr == a;
      if i >= |x| { assert y[i-|x|] == z[i]; }
    }
    forall a | a in FreeSet(m, x) ensures a in FreeSet(m, z) {
      var i :| 0 <= i < |x| && IsFree(m, x[i]) && x[i].addr == a;
      assert z[i] == x[i];
    }
    forall a | a in Taken(m, x) ensures a in Taken(m, z) {
      var i :| 0 <= i < |x| && IsTaken(m, x[i]) && x[i].addr == a;
      assert z[i] == x[i];
    }
    forall a | a in FreeSet(m, y) ensures a in FreeSet(m, z) {
      var i :| 0 <= i < |y| && IsFree(m, y[i]) && y[i].addr == a;
      assert z[|x|+i] == y[i];
    }
    forall a | a in Taken(m, y) ensures a in Taken(m, z) {
      var i :| 0 <= i < |y| && IsTaken(m, y[i]) && y[i].addr == a;
      assert z[|x|+i] == y[i];
    }
  }

  /** What is free, in use, and used, of some cells. */
  ghost predicate Makes(m: Memory, x: seq<Cell>, free: set<nat>, taken: set<nat>, used: nat)
  {
    FreeSet(m, x) == free && Taken(m, x) == taken && Used(m, x) == used
  }

  lemma MakesJoin(m: Memory, x: seq<Cell>, f: set<nat>, t: set<nat>, u: nat, y: seq<Cell>, f': set<nat>, t': set<nat>, u': nat)
    requires Makes(m, x, f, t, u) && Makes(m, y, f', t', u')
    ensures Makes(m, x + y, f + f', t + t', u + u')
  {
    SetsJoin(m, x, y);
    UsedJoin(m, x, y);
  }

  lemma MakesOne(m: Memory, c: Cell)
    requires c.addr < |m|
    ensures Makes(m, [c], if IsFree(m, c) then {c.addr} else {}, if IsTaken(m, c) then {c.addr} else {}, Weight(m, c))
  {
    UsedOne(m, c);
    assert [c][0] == c;
  }

  lemma MakesTwo(m: Memory, c: Cell, d: Cell)
    requires c.addr < |m| && d.addr < |m|
    ensures Makes(m, [c, d], (if IsFree(m, c) then {c.addr} else {}) + (if IsFree(m, d) then {d.addr} else {}),
      (if IsTaken(m, c) then {c.addr} else {}) + (if IsTaken(m, d) then {d.addr} else {}), Weight(m, c) + Weight(m, d))
  {
    MakesOne(m, c);
    MakesOne(m, d);
    SetsJoin(m, [c], [d]);
    UsedJoin(m, [c], [d]);
    assert [c, d] == [c] + [d];
  }

  /** Three parts, of which only the middle one differs. */
  lemma MakesAround(m: Memory, m': Memory, x: seq<Cell>, a: seq<Cell>, b: seq<Cell>, y: seq<Cell>)
    requires forall i :: 0 <= i < |x| ==> Unchanged(m, m', x[i])
    requires forall i :: 0 <= i < |y| ==> Unchanged(m, m', y[i])
    ensures Makes(m, x + a + y, FreeSet(m, x) + FreeSet(m, a) + FreeSet(m, y), Taken(m, x) + Taken(m, a) + Taken(m, y), Used(m, x) + Used(m, a) + Used(m, y))
    ensures Makes(m', x + b + y, FreeSet(m, x) + FreeSet(m', b) + FreeSet(m, y), Taken(m, x) + Taken(m', b) + Taken(m, y), Used(m, x) + Used(m', b) + Used(m, y))
  {
    SetsJoin(m, x, a);
    SetsJoin(m, x + a, y);
    UsedJoin(m, x, a);
    UsedJoin(m, x + a, y);
    PartSame(m, m', x);
    PartSame(m, m', y);
    SetsJoin(m', x, b);
    SetsJoin(m', x + b, y);
    UsedJoin(m', x, b);
    UsedJoin(m', x + b, y);
  }

  lemma PartSame(m: Memory, m': Memory, x: seq<Cell>)
    requires forall i :: 0 <= i < |x| ==> Unchanged(m, m', x[i])
    ensures FreeSet(m', x) == FreeSet(m, x) && Taken(m', x) == Taken(m, x) && Used(m', x) == Used(m, x)
  {
    UsedSame(m, m', x);
    forall i | 0 <= i < |x| ensures IsFree(m', x[i]) == IsFree(m, x[i]) && IsTaken(m', x[i]) == IsTaken(m, x[i]) {
      assert Unchanged(m, m', x[i]);
    }
  }

  /** The parts before and after n cells from k on. */
  lemma PartsUnchanged(m: Memory, m': Memory, cells: seq<Cell>, k: nat, n: nat, x: seq<Cell>, y: seq<Cell>)
    requires k + n <= |cells| && |m'| == |m| && x == cells[..k] && y == cells[k+n..]
    requires forall i :: 0 <= i < |cells| && !(k <= i < k + n) ==> Unchanged(m, m', cells[i])
    ensures forall i :: 0 <= i < |x| ==> Unchanged(m, m', x[i])
    ensures forall i :: 0 <= i < |y| ==> Unchanged(m, m', y[i])
    ensures cells == x + cells[k..k+n] + y
  {
    forall i | 0 <= i < |y| ensures Unchanged(m, m', y[i]) {
      assert y[i] == cells[k+n+i];
    }
  }

  /** Cells with the block t put after the k-th. */
  function SplitCells(cells: seq<Cell>, k: nat, t: nat): (r: seq<Cell>)
    requires k < |cells|
    ensures |r| == |cells| + 1
  {
    cells[..k] + [cells[k], Cell(t, Block)] + cells[k+1..]
  }

  /** Block k, in use, gives up its end as a free block. */
  ghost predicate SplitAt(m: Memory, m': Memory, tails: seq<nat>, tails': seq<nat>, g: nat, cells: seq<Cell>, k: nat, s: nat)
  {
    && k + 1 < |cells| && OnlyAt(m, m', cells, k) && IsTaken(m, cells[k]) && !IsFree(m, cells[k+1])
    && var a, t := cells[k].addr, cells[k].addr + s;
    && t < |m| && t < |tails| && a + m[a].size < |tails| && 0 < s < m[a].size && g > 0 && s % g == 0 && m'[a].magic == m[a].magic && m'[a].size == s
    && m'[t].magic == MAGIC_F && m'[t].size == m[a].size - s && tails' == tails[t := a][a + m[a].size := t]
  }

  lemma SplitMakes(m: Memory, m': Memory, tails: seq<nat>, tails': seq<nat>, g: nat, cells: seq<Cell>, k: nat, s: nat)
    requires SplitAt(m, m', tails, tails', g, cells, k, s)
    ensures var t := cells[k].addr + s; var cs := SplitCells(cells, k, t);
      && FreeSet(m', cs) == FreeSet(m, cells) + {t} && Taken(m', cs) == Taken(m, cells)
      && Used(m', cs) == Used(m, cells) - m[cells[k].addr].size + s
  {
    var c, d := cells[k], Cell(cells[k].addr + s, Block);
    PartsUnchanged(m, m', cells, k, 1, cells[..k], cells[k+1..]);
    assert cells[k..k+1] == [c];
    assert SplitCells(cells, k, d.addr) == cells[..k] + [c, d] + cells[k+1..];
    assert m'[c.addr].magic == m[c.addr].magic != MAGIC_F && m'[d.addr].magic == MAGIC_F && m'[c.addr].size == s;
    hide FreeSet, Taken, Used, OnlyAt, SplitAt, Unchanged, SplitCells;
    MakesAround(m, m', cells[..k], [c], [c, d], cells[k+1..]);
    MakesOne(m, c);
    MakesTwo(m', c, d);
  }

  lemma SplitIndex(cells: seq<Cell>, k: nat, t: nat, i: nat)
    requires k < |cells| && i < |cells| + 1
    ensures SplitCells(cells, k, t)[i] == if i <= k then cells[i] else if i == k + 1 then Cell(t, Block) else cells[i-1]
  {
  }

  lemma SplitOk(m: Memory, m': Memory, tails: seq<nat>, tails': seq<nat>, g: nat, cells: seq<Cell>, k: nat, s: nat, i: nat)
    requires Tiled(m, tails, g, cells) && SplitAt(m, m', tails, tails', g, cells, k, s) && i <= |cells|
    ensures CellOk(m', g, SplitCells(cells, k, cells[k].addr + s)[i])
  {
    var a, t := cells[k].addr, cells[k].addr + s;
    SplitIndex(cells, k, t, i);
    assert CellOk(m, g, cells[k]);
    if i < k {
      assert CellOk(m, g, cells[i]) && Unchanged(m, m', cells[i]);
    } else if i == k + 1 {
      MultipleLeft(m[a].size, s, g);
    } else if i > k + 1 {
      assert CellOk(m, g, cells[i-1]) && Unchanged(m, m', cells[i-1]);
    }
  }

  lemma SplitJointAt(m: Memory, m': Memory, tails: seq<nat>, tails': seq<nat>, g: nat, cells: seq<Cell>, k: nat, s: nat)
    requires Tiled(m, tails, g, cells) && SplitAt(m, m', tails, tails', g, cells, k, s)
    ensures var t := cells[k].addr + s; Joint(m', tails', g, cells[k], Cell(t, Block)) && Joint(m', tails', g, Cell(t, Block), cells[k+1])
    ensures cells[k+1].addr == cells[k].addr + m[cells[k].addr].size
  {
    assert Joint(m, tails, g, cells[k], cells[Succ(k)]) && CellOk(m, g, cells[k]) && CellOk(m, g, cells[k+1]);
    assert Unchanged(m, m', cells[k+1]);
  }

  /** A joint elsewhere. */
  lemma JointElsewhere(m: Memory, m': Memory, tails: seq<nat>, tails': seq<nat>, g: nat, c: Cell, d: Cell)
    requires Joint(m, tails, g, c, d) && Unchanged(m, m', c) && Unchanged(m, m', d)
    requires |tails'| == |tails| && tails'[d.addr] == tails[d.addr]
    ensures Joint(m', tails', g, c, d)
  {
  }

  lemma SplitJoint(m: Memory, m': Memory, tails: seq<nat>, tails': seq<nat>, g: nat, cells: seq<Cell>, k: nat, s: nat, i: nat)
    requires Tiled(m, tails, g, cells) && SplitAt(m, m', tails, tails', g, cells, k, s) && i < |cells| - 1 && i != k
    ensures Joint(m', tails', g, cells[i], cells[i+1])
  {
    assert Joint(m, tails, g, cells[i], cells[Succ(i)]);
    SplitJointAt(m, m', tails, tails', g, cells, k, s);
    assert Unchanged(m, m', cells[i]);
    if i + 1 == k {
      assert m'[cells[k].addr].magic == m[cells[k].addr].magic;
    } else {
      assert Unchanged(m, m', cells[i+1]);
      if i + 1 < k { Rising(m, tails, g, cells, i + 1, k); } else { Rising(m, tails, g, cells, k + 1, i + 1); }
      JointElsewhere(m, m', tails, tails', g, cells[i], cells[i+1]);
    }
  }

  lemma SplitTiled(m: Memory, m': Memory, tails: seq<nat>, tails': seq<nat>, g: nat, cells: seq<Cell>, k: nat, s: nat)
    requires Tiled(m, tails, g, cells) && SplitAt(m, m', tails, tails', g, cells, k, s)
    ensures Tiled(m', tails', g, SplitCells(cells, k, cells[k].addr + s))
  {
    var t := cells[k].addr + s;
    var cs := SplitCells(cells, k, t);
    hide CellOk, Joint, SplitAt, SplitCells;
    forall i | 0 <= i < |cs| ensures CellOk(m', g, cs[i]) {
      SplitOk(m, m', tails, tails', g, cells, k, s, i);
    }
    forall i | 0 <= i < |cs| - 1 ensures Joint(m', tails', g, cs[i], cs[Succ(i)]) {
      SplitIndex(cells, k, t, i);
      SplitIndex(cells, k, t, i + 1);
      SplitJointAt(m, m', tails, tails', g, cells, k, s);
      if i < k {
        SplitJoint(m, m', tails, tails', g, cells, k, s, i);
      } else if i > k + 1 {
        SplitJoint(m, m', tails, tails', g, cells, k, s, i - 1);
      }
    }
    SplitIndex(cells, k, t, 0);
    SplitIndex(cells, k, t, |cells|);
  }

  lemma MultipleLeft(x: nat, s: nat, g: nat)
    requires g > 0 && x % g == 0 && s % g == 0 && s <= x
    ensures (x - s) % g == 0
  {
    NT.DividesLinear(g, x, s, 1, -1);
    assert 1 * x + -1 * s == x - s;
  }

  lemma MultipleSum(x: nat, y: nat, g: nat)
    requires g > 0 && x % g == 0 && y % g == 0
    ensures (x + y) % g == 0
  {
    NT.DividesLinear(g, x, y, 1, 1);
    assert 1 * x + 1 * y == x + y;
  }

  /** Cells without the one after the k-th. */
  function MergedCells(cells: seq<Cell>, k: nat): (r: seq<Cell>)
    requires k + 1 < |cells|
    ensures |r| == |cells| - 1
  {
    cells[..k] + [cells[k]] + cells[k+2..]
  }

  /** Block k takes in the one after it. */
  ghost predicate MergeAt(m: Memory, m': Memory, tails: seq<nat>, tails': seq<nat>, cells: seq<Cell>, k: nat)
  {
    && k + 2 < |cells| && |m'| == |m| && cells[k].kind == Block && cells[k+1].kind == Block
    && (forall i :: 0 <= i < |cells| && i != k && i != k + 1 ==> Unchanged(m, m', cells[i]))
    && !(IsFree(m, cells[k]) && IsFree(m, cells[k+2]))
    && Swallows(m, m', tails, tails', cells[k].addr, cells[k+1].addr)
  }

  /** The block a has the size of b too. */
  ghost predicate Swallows(m: Memory, m': Memory, tails: seq<nat>, tails': seq<nat>, a: nat, b: nat)
  {
    && a < |m| && b < |m| && |m'| == |m|
    && m'[a].magic == m[a].magic && m'[a].size == m[a].size + m[b].size
    && a + m'[a].size < |tails| && tails' == tails[a + m'[a].size := a]
  }

  lemma MergeMakes(m: Memory, m': Memory, tails: seq<nat>, tails': seq<nat>, g: nat, cells: seq<Cell>, k: nat)
    requires Tiled(m, tails, g, cells) && MergeAt(m, m', tails, tails', cells, k)
    ensures var b := cells[k+1].addr; var cs := MergedCells(cells, k);
      && FreeSet(m', cs) == FreeSet(m, cells) - {b} && Taken(m', cs) == Taken(m, cells) - {b}
      && Used(m', cs) == Used(m, cells) - Weight(m, cells[k]) - Weight(m, cells[k+1]) + Weight(m', cells[k])
  {
    var c, d, x, y := cells[k], cells[k+1], cells[..k], cells[k+2..];
    PartsUnchanged(m, m', cells, k, 2, x, y);
    assert cells[k..k+2] == [c, d];
    NotIn(m, tails, g, cells, k + 1, x, y);
    Others(m, tails, g, cells, k + 1, k);
    assert CellOk(m, g, c) && CellOk(m, g, d) && m'[c.addr].magic == m[c.addr].magic && |m'| == |m|;
    assert MergedCells(cells, k) == x + [c] + y && cells == x + [c, d] + y;
    assert (IsFree(m', c) <==> IsFree(m, c)) && (IsTaken(m', c) <==> IsTaken(m, c)) && (IsFree(m, d) || IsTaken(m, d));
    hide FreeSet, Taken, Used, Tiled, MergeAt, CellOk, IsFree, IsTaken, Unchanged, Weight, MergedCells;
    MakesAround(m, m', x, [c, d], [c], y);
    MakesOne(m', c);
    MakesTwo(m, c, d);
  }

  /** The address of cell k belongs to no other. */
  lemma NotIn(m: Memory, tails: seq<nat>, g: nat, cells: seq<Cell>, k: nat, x: seq<Cell>, y: seq<Cell>)
    requires Tiled(m, tails, g, cells) && 0 < k < |cells| && x == cells[..k-1] && y == cells[k+1..]
    ensures var b := cells[k].addr; b !in FreeSet(m, x) && b !in FreeSet(m, y) && b !in Taken(m, x) && b !in Taken(m, y)
  {
    forall i | 0 <= i < |x| ensures x[i].addr != cells[k].addr { Others(m, tails, g, cells, k, i); }
    forall i | 0 <= i < |y| ensures y[i].addr != cells[k].addr { Others(m, tails, g, cells, k, k + 1 + i); }
  }

  lemma MergeIndex(cells: seq<Cell>, k: nat, i: nat)
    requires k + 1 < |cells| && i < |cells| - 1
    ensures MergedCells(cells, k)[i] == if i <= k then cells[i] else cells[i+1]
  {
  }

  lemma MergeJointAt(m: Memory, m': Memory, tails: seq<nat>, tails': seq<nat>, g: nat, cells: seq<Cell>, k: nat)
    requires Tiled(m, tails, g, cells) && MergeAt(m, m', tails, tails', cells, k)
    ensures Joint(m', tails', g, cells[k], cells[k+2]) && CellOk(m', g, cells[k])
    ensures cells[k+2].addr == cells[k].addr + m'[cells[k].addr].size
  {
    assert Joint(m, tails, g, cells[k], cells[Succ(k)]) && Joint(m, tails, g, cells[k+1], cells[Succ(k+1)]);
    assert CellOk(m, g, cells[k]) && CellOk(m, g, cells[k+1]) && CellOk(m, g, cells[k+2]);
    assert Unchanged(m, m', cells[k+2]);
    MultipleSum(m[cells[k].addr].size, m[cells[k+1].addr].size, g);
  }

  lemma MergeJoint(m: Memory, m': Memory, tails: seq<nat>, tails': seq<nat>, g: nat, cells: seq<Cell>, k: nat, i: nat)
    requires Tiled(m, tails, g, cells) && MergeAt(m, m', tails, tails', cells, k) && i < |cells| - 1 && i != k && i != k + 1
    ensures Joint(m', tails', g, cells[i], cells[i+1])
  {
    assert Joint(m, tails, g, cells[i], cells[Succ(i)]);
    MergeJointAt(m, m', tails, tails', g, cells, k);
    assert Unchanged(m, m', cells[i]);
    if i + 1 < k { Rising(m, tails, g, cells, i + 1, k); }
    if i + 1 > k { Rising(m, tails, g, cells, k + 2, i + 1); } else { Rising(m, tails, g, cells, k, k + 2); }
    if i + 1 != k {
      assert Unchanged(m, m', cells[i+1]);
      JointElsewhere(m, m', tails, tails', g, cells[i], cells[i+1]);
    }
  }

  lemma MergeTiled(m: Memory, m': Memory, tails: seq<nat>, tails': seq<nat>, g: nat, cells: seq<Cell>, k: nat)
    requires Tiled(m, tails, g, cells) && MergeAt(m, m', tails, tails', cells, k)
    ensures Tiled(m', tails', g, MergedCells(cells, k))
  {
    var cs := MergedCells(cells, k);
    MergeJointAt(m, m', tails, tails', g, cells, k);
    hide Joint, MergedCells;
    forall i | 0 <= i < |cs| ensures CellOk(m', g, cs[i]) {
      MergeIndex(cells, k, i);
      if i < k {
        assert CellOk(m, g, cells[i]) && Unchanged(m, m', cells[i]);
      } else if i > k {
        assert CellOk(m, g, cells[i+1]) && Unchanged(m, m', cells[i+1]);
      }
    }
    forall i | 0 <= i < |cs| - 1 ensures Joint(m', tails', g, cs[i], cs[Succ(i)]) {
      MergeIndex(cells, k, i);
      MergeIndex(cells, k, i + 1);
      if i < k {
        MergeJoint(m, m', tails, tails', g, cells, k, i);
      } else if i > k {
        MergeJoint(m, m', tails, tails', g, cells, k, i + 1);
      }
    }
    MergeIndex(cells, k, 0);
    MergeIndex(cells, k, |cells| - 2);
  }

  // -------------------------------------------------------------- more memory

  /** A leader, a block of size s, the rest of ns as a free block if there is any, and an end mark. */
  function Arena(base: nat, g: nat, s: nat, ns: nat): (r: seq<Cell>)
    ensures |r| >= 3 && r[0] == Cell(base, Leader) && r[|r|-1] == Cell(base + g + ns, End)
  {
    [Cell(base, Leader), Cell(base + g, Block)] + (if ns > s then [Cell(base + g + s, Block)] else []) + [Cell(base + g + ns, End)]
  }

  /** The headers and tails of a new arena are written. */
  ghost predicate ArenaMade(m: Memory, tails: seq<nat>, base: nat, g: nat, s: nat, ns: nat)
  {
    && g > 0 && 0 < base && base + g + ns < |m| == |tails| && 0 < s <= ns && s % g == 0 && ns % g == 0
    && m[base].magic == MAGIC_E && m[base].size == g && tails[base+g] == base
    && m[base+g].magic == MAGIC_A && m[base+g].size == s && tails[base+g+s] == base + g
    && (ns > s ==> m[base+g+s].magic == MAGIC_F && m[base+g+s].size == ns - s && tails[base+g+ns] == base + g + s)
    && m[base+g+ns].magic == MAGIC_E
  }

  /** Nothing of the older arenas has changed; they end before base. */
  ghost predicate Older(m: Memory, m': Memory, tails: seq<nat>, tails': seq<nat>, g: nat, cells: seq<Cell>, base: nat)
  {
    && |m'| == |m| && |tails'| == |tails|
    && (forall i :: 0 <= i < |cells| ==> Unchanged(m, m', cells[i]) && cells[i].addr < base)
    && (forall a :: 0 <= a < base && a < |tails| ==> tails'[a] == tails[a])
    && (|cells| > 0 ==> cells[|cells|-1].addr + g <= base)
  }

  lemma ArenaTiled(m: Memory, tails: seq<nat>, base: nat, g: nat, s: nat, ns: nat)
    requires ArenaMade(m, tails, base, g, s, ns)
    ensures Tiled(m, tails, g, Arena(base, g, s, ns))
  {
    var r := Arena(base, g, s, ns);
    MultipleLeft(ns, s, g);
    forall i | 0 <= i < |r| - 1 ensures Joint(m, tails, g, r[i], r[Succ(i)]) {
      if i == 0 { } else if i == 1 { } else { }
    }
  }

  lemma ArenaMakes(m: Memory, tails: seq<nat>, base: nat, g: nat, s: nat, ns: nat)
    requires ArenaMade(m, tails, base, g, s, ns)
    ensures Makes(m, Arena(base, g, s, ns), if ns > s then {base + g + s} else {}, {base + g}, s)
  {
    var a, b, c, d := Cell(base, Leader), Cell(base + g, Block), Cell(base + g + s, Block), Cell(base + g + ns, End);
    MakesTwo(m, a, b);
    if ns > s {
      MakesTwo(m, c, d);
      MakesJoin(m, [a, b], {}, {base + g}, s, [c, d], {base + g + s}, {}, 0);
      assert Arena(base, g, s, ns) == [a, b] + [c, d];
    } else {
      MakesOne(m, d);
      MakesJoin(m, [a, b], {}, {base + g}, s, [d], {}, {}, 0);
      assert Arena(base, g, s, ns) == [a, b] + [d];
    }
  }

  lemma AfterMakes(m: Memory, m': Memory, tails: seq<nat>, tails': seq<nat>, g: nat, cells: seq<Cell>, r: seq<Cell>, base: nat)
    requires Older(m, m', tails, tails', g, cells, base)
    ensures FreeSet(m', cells + r) == FreeSet(m, cells) + FreeSet(m', r) && Taken(m', cells + r) == Taken(m, cells) + Taken(m', r)
    ensures Used(m', cells + r) == Used(m, cells) + Used(m', r)
  {
    PartSame(m, m', cells);
    SetsJoin(m', cells, r);
    UsedJoin(m', cells, r);
  }

  /** Tiled cells, and after them more. */
  lemma AfterTiled(m: Memory, m': Memory, tails: seq<nat>, tails': seq<nat>, g: nat, cells: seq<Cell>, r: seq<Cell>, base: nat)
    requires Tiled(m, tails, g, cells) && Older(m, m', tails, tails', g, cells, base) && |m| == |tails|
    requires Tiled(m', tails', g, r) && |r| > 0 && r[0].addr == base < |m|
    ensures Tiled(m', tails', g, cells + r)
  {
    var z, n := cells + r, |cells|;
    forall i | 0 <= i < |z| ensures CellOk(m', g, z[i]) {
      if i < n {
        OldOk(m, m', tails, tails', g, cells, i, base);
        assert z[i] == cells[i];
      } else {
        assert z[i] == r[i-n];
      }
    }
    hide CellOk, Joint;
    forall i | 0 <= i < |z| - 1 ensures Joint(m', tails', g, z[i], z[Succ(i)]) {
      AfterJoint(m, m', tails, tails', g, cells, r, base, i);
    }
    assert n > 0 ==> z[0] == cells[0];
    assert z[|z|-1] == r[|r|-1];
  }

  lemma AfterJoint(m: Memory, m': Memory, tails: seq<nat>, tails': seq<nat>, g: nat, cells: seq<Cell>, r: seq<Cell>, base: nat, i: nat)
    requires Tiled(m, tails, g, cells) && Older(m, m', tails, tails', g, cells, base) && |m| == |tails|
    requires Tiled(m', tails', g, r) && |r| > 0 && r[0].addr == base < |m| && i < |cells| + |r| - 1
    ensures Joint(m', tails', g, (cells + r)[i], (cells + r)[Succ(i)])
  {
    var z, n := cells + r, |cells|;
    if i + 1 < n {
      OldJoint(m, m', tails, tails', g, cells, i, base);
      assert z[i] == cells[i] && z[Succ(i)] == cells[Succ(i)];
    } else if i + 1 == n {
      assert z[i] == cells[n-1] && z[Succ(i)] == r[0] && CellOk(m, g, cells[n-1]);
      BetweenArenas(m', tails', g, cells[n-1], r[0]);
    } else {
      assert z[i] == r[i-n] && z[Succ(i)] == r[Succ(i-n)] && Joint(m', tails', g, r[i-n], r[Succ(i-n)]);
    }
  }

  lemma OldOk(m: Memory, m': Memory, tails: seq<nat>, tails': seq<nat>, g: nat, cells: seq<Cell>, i: nat, base: nat)
    requires Tiled(m, tails, g, cells) && Older(m, m', tails, tails', g, cells, base) && i < |cells|
    ensures CellOk(m', g, cells[i])
  {
    assert CellOk(m, g, cells[i]) && Unchanged(m, m', cells[i]);
    CellSame(m, m', g, cells[i]);
  }

  lemma CellSame(m: Memory, m': Memory, g: nat, c: Cell)
    requires CellOk(m, g, c) && Unchanged(m, m', c)
    ensures CellOk(m', g, c)
  {
  }

  lemma OldJoint(m: Memory, m': Memory, tails: seq<nat>, tails': seq<nat>, g: nat, cells: seq<Cell>, i: nat, base: nat)
    requires Tiled(m, tails, g, cells) && Older(m, m', tails, tails', g, cells, base) && i < |cells| - 1
    ensures Joint(m', tails', g, cells[i], cells[Succ(i)])
  {
    assert Joint(m, tails, g, cells[i], cells[Succ(i)]);
    assert Unchanged(m, m', cells[i]) && Unchanged(m, m', cells[Succ(i)]);
    JointElsewhere(m, m', tails, tails', g, cells[i], cells[Succ(i)]);
  }

  lemma BetweenArenas(m: Memory, tails: seq<nat>, g: nat, c: Cell, d: Cell)
    requires c.kind == End && d.kind == Leader && c.addr + g <= d.addr < |tails| && c.addr < d.addr && c.addr < |m|
    ensures Joint(m, tails, g, c, d)
  {
  }

  /** The end mark at e becomes a block of size n, and there is a new one after it. */
  ghost predicate Extended(m: Memory, m': Memory, tails: seq<nat>, tails': seq<nat>, g: nat, cells: seq<Cell>, n: nat)
  {
    && |cells| > 0 && |m| == |m'| == |tails| && g > 0 && n > 0 && n % g == 0
    && (forall i :: 0 <= i < |cells| - 1 ==> Unchanged(m, m', cells[i]))
    && var e := cells[|cells|-1].addr;
    e + n < |m| && m'[e].magic == MAGIC_A && m'[e].size == n && tails' == tails[e + n := e] && m'[e+n].magic == MAGIC_E
  }

  function ExtendedCells(cells: seq<Cell>, n: nat): seq<Cell>
    requires |cells| > 0
  {
    var e := cells[|cells|-1].addr;
    cells[..|cells|-1] + [Cell(e, Block), Cell(e + n, End)]
  }

  lemma ExtendedTiled(m: Memory, m': Memory, tails: seq<nat>, tails': seq<nat>, g: nat, cells: seq<Cell>, n: nat)
    requires Tiled(m, tails, g, cells) && Extended(m, m', tails, tails', g, cells, n)
    ensures Tiled(m', tails', g, ExtendedCells(cells, n))
  {
    var z, k := ExtendedCells(cells, n), |cells| - 1;
    var e := cells[k].addr;
    assert CellOk(m, g, cells[k]);
    forall i | 0 <= i < |z| ensures CellOk(m', g, z[i]) {
      if i < k {
        assert z[i] == cells[i] && CellOk(m, g, cells[i]) && Unchanged(m, m', cells[i]);
      }
    }
    forall i | 0 <= i < |z| - 1 ensures Joint(m', tails', g, z[i], z[Succ(i)]) {
      if i < k {
        assert z[i] == cells[i] && Joint(m, tails, g, cells[i], cells[Succ(i)]) && Unchanged(m, m', cells[i]);
        if i + 1 < k {
          assert z[Succ(i)] == cells[Succ(i)] && Unchanged(m, m', cells[Succ(i)]);
          Rising(m, tails, g, cells, i + 1, k);
        }
      }
    }
  }

  lemma ExtendedMakes(m: Memory, m': Memory, tails: seq<nat>, tails': seq<nat>, g: nat, cells: seq<Cell>, n: nat)
    requires Tiled(m, tails, g, cells) && Extended(m, m', tails, tails', g, cells, n)
    ensures var z, e := ExtendedCells(cells, n), cells[|cells|-1].addr;
      && FreeSet(m', z) == FreeSet(m, cells) && Taken(m', z) == Taken(m, cells) + {e} && Used(m', z) == Used(m, cells) + n
  {
    var k := |cells| - 1;
    var c, e := cells[k], cells[k].addr;
    var a, b := Cell(e, Block), Cell(e + n, End);
    assert CellOk(m, g, c);
    PartsUnchanged(m, m', cells, k, 1, cells[..k], []);
    assert cells[k..k+1] == [c];
    hide FreeSet, Taken, Used, Tiled;
    MakesAround(m, m', cells[..k], [c], [a, b], []);
    MakesOne(m, c);
    MakesTwo(m', a, b);
    MakesNothing(m);
    assert cells[..k] + [a, b] + [] == ExtendedCells(cells, n);
  }

  lemma MakesNothing(m: Memory)
    ensures Makes(m, [], {}, {}, 0)
  {
  }

  // ---------------------------------------------------------- the newest arena

  /** The leader of the last arena, or 0. */
  function LastLeader(cells: seq<Cell>): nat
  {
    if |cells| == 0 then 0
    else if cells[|cells|-1].kind == Leader then cells[|cells|-1].addr
    else LastLeader(cells[..|cells|-1])
  }

  ghost predicate NoLeader(x: seq<Cell>)
  {
    forall i :: 0 <= i < |x| ==> x[i].kind != Leader
  }

  lemma {:induction false} LeaderFirst(x: seq<Cell>, y: seq<Cell>)
    requires NoLeader(y)
    ensures LastLeader(x + y) == LastLeader(x)
  {
    if |y| == 0 {
      assert x + y == x;
    } else {
      assert (x + y)[..|x|+|y|-1] == x + y[..|y|-1];
      LeaderFirst(x, y[..|y|-1]);
    }
  }

  /** Parts without leaders may be exchanged. */
  lemma {:induction false} LeaderSame(x: seq<Cell>, a: seq<Cell>, b: seq<Cell>, y: seq<Cell>)
    requires NoLeader(a) && NoLeader(b)
    ensures LastLeader(x + a + y) == LastLeader(x + b + y)
  {
    if |y| == 0 {
      LeaderFirst(x, a);
      LeaderFirst(x, b);
      assert x + a + y == x + a && x + b + y == x + b;
    } else {
      var n := |y| - 1;
      assert (x + a + y)[..|x+a|+n] == x + a + y[..n] && (x + b + y)[..|x+b|+n] == x + b + y[..n];
      LeaderSame(x, a, b, y[..n]);
    }
  }

  lemma {:induction false} LeaderAt(cells: seq<Cell>) returns (i: nat)
    requires LastLeader(cells) != 0
    ensures i < |cells| && cells[i] == Cell(LastLeader(cells), Leader)
  {
    var n := |cells| - 1;
    if cells[n].kind == Leader {
      i := n;
    } else {
      i := LeaderAt(cells[..n]);
    }
  }

  /** chain is the leader of the newest arena, and knows where it ends. */
  ghost predicate Newest(m: Memory, cells: seq<Cell>, chain: nat)
  {
    && chain == LastLeader(cells) && (|cells| > 0 <==> chain != 0)
    && (|cells| > 0 ==> chain < |m| && chain + m[chain].csize == cells[|cells|-1].addr)
  }

  lemma NewestSame(m: Memory, m': Memory, cells: seq<Cell>, cs: seq<Cell>, chain: nat)
    requires Newest(m, cells, chain) && LastLeader(cs) == LastLeader(cells) && |m'| == |m|
    requires (|cs| > 0 <==> |cells| > 0) && (|cells| > 0 ==> cs[|cs|-1] == cells[|cells|-1])
    requires SameEnds(m, m')
    ensures Newest(m', cs, chain)
  {
  }

  /** No leader is given another end. */
  ghost predicate SameEnds(m: Memory, m': Memory)
  {
    |m'| == |m| && forall x :: 0 <= x < |m| ==> m'[x].csize == m[x].csize
  }

  lemma NewestSplit(m: Memory, m': Memory, cells: seq<Cell>, k: nat, t: nat, chain: nat)
    requires Newest(m, cells, chain) && k + 1 < |cells| && cells[k].kind == Block && SameEnds(m, m')
    ensures Newest(m', SplitCells(cells, k, t), chain)
  {
    var c := cells[k];
    assert cells == cells[..k] + [c] + cells[k+1..];
    LeaderSame(cells[..k], [c], [c, Cell(t, Block)], cells[k+1..]);
    NewestSame(m, m', cells, SplitCells(cells, k, t), chain);
  }

  lemma NewestMerge(m: Memory, m': Memory, tails: seq<nat>, tails': seq<nat>, cells: seq<Cell>, k: nat, chain: nat)
    requires Newest(m, cells, chain) && MergeAt(m, m', tails, tails', cells, k) && SameEnds(m, m')
    ensures Newest(m', MergedCells(cells, k), chain)
  {
    var c, d := cells[k], cells[k+1];
    assert cells == cells[..k] + [c, d] + cells[k+2..];
    LeaderSame(cells[..k], [c, d], [c], cells[k+2..]);
    NewestSame(m, m', cells, MergedCells(cells, k), chain);
  }

  lemma NewestArena(m: Memory, cells: seq<Cell>, base: nat, g: nat, s: nat, ns: nat)
    requires base < |m| && base > 0 && m[base].csize == g + ns
    ensures Newest(m, cells + Arena(base, g, s, ns), base)
  {
    var r := Arena(base, g, s, ns);
    assert r == [r[0]] + r[1..] && NoLeader(r[1..]);
    assert cells + r == (cells + [r[0]]) + r[1..];
    LeaderFirst(cells + [r[0]], r[1..]);
  }

  lemma NewestExtended(m: Memory, m': Memory, tails: seq<nat>, tails': seq<nat>, g: nat, cells: seq<Cell>, n: nat, chain: nat)
    requires Newest(m, cells, chain) && Extended(m, m', tails, tails', g, cells, n) && cells[|cells|-1].kind == End
    requires chain < |m| && m'[chain].csize == m[chain].csize + n
    ensures Newest(m', ExtendedCells(cells, n), chain)
  {
    var k, e := |cells| - 1, cells[|cells|-1].addr;
    assert cells == cells[..k] + [cells[k]] + [];
    LeaderSame(cells[..k], [cells[k]], [Cell(e, Block), Cell(e + n, End)], []);
    assert ExtendedCells(cells, n) == cells[..k] + [Cell(e, Block), Cell(e + n, End)] + [];
  }
}
