/**
 * The order in which bytes leave a queue of qio.c that is not of messages, over whole runs: qread takes blocks off
 * and puts the rest of the last one back in two critical sections, and qget, qconsume, qdiscard, the writers and
 * qclose may come between them; qbread may not, since it needs rlock.
 */
module QueueOrder {
  import opened Options

  /** A byte stands for its place among all that were accepted; a block is its unread bytes. */
  type Block = seq<nat>

  /** What a qread of n bytes has taken off the queue and is copying. */
  datatype Hand = Hand(first: seq<Block>, n: nat)

  /** put is how many bytes were accepted, got are those that came out, in the order in which they did. */
  datatype State = State(blocks: seq<Block>, hand: Option<Hand>, closed: bool, put: nat, got: seq<nat>)

  datatype Op = Put(n: nat) | Grab(n: nat) | Back | Bread(n: nat) | Get | Consume(n: nat) | Discard(n: nat) | Close

  function Bytes(blocks: seq<Block>): seq<nat>
  {
    if blocks == [] then [] else blocks[0] + Bytes(blocks[1..])
  }

  /** The places of n bytes from a on. */
  function From(a: nat, n: nat): (r: seq<nat>)
    ensures |r| == n && forall i :: 0 <= i < n ==> r[i] == a + i
  {
    seq(n, i requires 0 <= i < n => a + i)
  }

  function Upto(s: seq<nat>, n: nat): seq<nat>
  {
    if |s| > n then s[..n] else s
  }

  /** The blocks from the first that has bytes on. */
  function SkipEmpty(blocks: seq<Block>): seq<Block>
  {
    if blocks == [] || blocks[0] != [] then blocks else SkipEmpty(blocks[1..])
  }

  /** How many of the blocks fit whole into what is left of a read. */
  function Fit(blocks: seq<Block>, room: int): (k: nat)
    ensures k <= |blocks|
  {
    if blocks == [] || |blocks[0]| > room then 0 else 1 + Fit(blocks[1..], room - |blocks[0]|)
  }

  /** bl2mem: the blocks left after n bytes have been copied. */
  function Left(first: seq<Block>, n: nat): seq<Block>
  {
    if first == [] then [] else if |first[0]| > n then [first[0][n..]] + first[1..] else Left(first[1..], n - |first[0]|)
  }

  function DropBytes(blocks: seq<Block>, n: nat): seq<Block>
  {
    if blocks == [] || n == 0 then blocks
    else if |blocks[0]| <= n then DropBytes(blocks[1..], n - |blocks[0]|)
    else [blocks[0][n..]] + blocks[1..]
  }

  /** The first block without its first n bytes, and none if that is all of it. */
  function CutFirst(blocks: seq<Block>, n: nat): seq<Block>
    requires blocks != []
  {
    if |blocks[0]| > n then [blocks[0][n..]] + blocks[1..] else blocks[1..]
  }

  /** The first half of qread: the first block, and when coalescing as many more as fit whole, after any empty ones. */
  function GrabFrom(coalesce: bool, s: State, n: nat): Option<State>
  {
    var blocks := if coalesce then SkipEmpty(s.blocks) else s.blocks;
    if s.hand.Some? || blocks == [] then None
    else
      var k := if coalesce then 1 + Fit(blocks[1..], n - |blocks[0]|) else 1;
      Some(s.(blocks := blocks[k..], hand := Some(Hand(blocks[..k], n))))
  }

  /** The second half: the bytes are delivered, and the block at which the copy stopped goes back. */
  function PutBack(s: State): Option<State>
  {
    if s.hand.None? then None
    else
      var h := s.hand.value;
      var left := Left(h.first, h.n);
      Some(s.(blocks := if left == [] then s.blocks else [left[0]] + s.blocks, hand := None, got := s.got + Upto(Bytes(h.first), h.n)))
  }

  /** Bytes taken out in one critical section. */
  function TakeOut(s: State, op: Op): Option<State>
    requires op.Bread? || op.Get? || op.Consume? || op.Discard?
  {
    match op
    case Bread(n) =>
      if s.hand.Some? || s.blocks == [] then None
      else Some(s.(blocks := CutFirst(s.blocks, n), got := s.got + Upto(s.blocks[0], n)))
    case Get => if s.blocks == [] then None else Some(s.(blocks := s.blocks[1..], got := s.got + s.blocks[0]))
    case Consume(n) =>
      var blocks := SkipEmpty(s.blocks);
      if blocks == [] then Some(s.(blocks := []))
      else Some(s.(blocks := CutFirst(blocks, n), got := s.got + Upto(blocks[0], n)))
    case Discard(n) => Some(s.(blocks := DropBytes(s.blocks, n), got := s.got + Upto(Bytes(s.blocks), n)))
  }

  /** The state after an operation, if it does not wait or fail. */
  function Step(coalesce: bool, s: State, op: Op): Option<State>
  {
    match op
    case Put(n) => if s.closed then None else Some(s.(blocks := s.blocks + [From(s.put, n)], put := s.put + n))
    case Grab(n) => GrabFrom(coalesce, s, n)
    case Back => PutBack(s)
    case Close => Some(s.(blocks := [], closed := true))
    case _ => TakeOut(s, op)
  }

  predicate Init(s: State)
  {
    s == State([], None, false, 0, [])
  }

  ghost predicate IsRun(coalesce: bool, r: seq<State>, ops: seq<Op>)
  {
    && |r| == |ops| + 1 && Init(r[0])
    && forall k :: 0 <= k < |ops| ==> Step(coalesce, r[k], ops[k]) == Some(r[k+1])
  }

  // The bytes behind the blocks.

  lemma {:induction false} BytesAppend(a: seq<Block>, b: seq<Block>)
    ensures Bytes(a + b) == Bytes(a) + Bytes(b)
  {
    if a == [] {
      assert a + b == b;
    } else {
      assert (a + b)[0] == a[0] && (a + b)[1..] == a[1..] + b;
      BytesAppend(a[1..], b);
    }
  }

  lemma BytesOne(b: Block)
    ensures Bytes([b]) == b
  {
    assert [b][1..] == [];
  }

  lemma BytesFront(b: Block, blocks: seq<Block>)
    ensures Bytes([b] + blocks) == b + Bytes(blocks)
  {
    assert ([b] + blocks)[1..] == blocks;
  }

  lemma {:induction false} SkipKeeps(blocks: seq<Block>)
    ensures Bytes(SkipEmpty(blocks)) == Bytes(blocks)
    ensures SkipEmpty(blocks) != [] ==> SkipEmpty(blocks)[0] != []
  {
    if blocks != [] && blocks[0] == [] {
      SkipKeeps(blocks[1..]);
    }
  }

  lemma {:induction false} FitBound(blocks: seq<Block>, room: nat)
    ensures |Bytes(blocks[..Fit(blocks, room)])| <= room
  {
    if !(blocks == [] || |blocks[0]| > room) {
      FitBound(blocks[1..], room - |blocks[0]|);
      var k := Fit(blocks[1..], room - |blocks[0]|);
      assert blocks[..k + 1] == [blocks[0]] + blocks[1..][..k];
      BytesFront(blocks[0], blocks[1..][..k]);
    }
  }

  lemma {:induction false} DropKeeps(blocks: seq<Block>, n: nat)
    ensures Upto(Bytes(blocks), n) + Bytes(DropBytes(blocks, n)) == Bytes(blocks)
  {
    if blocks != [] && n > 0 {
      var b, rest := blocks[0], blocks[1..];
      if |b| <= n {
        DropKeeps(rest, n - |b|);
        assert Upto(b + Bytes(rest), n) == b + Upto(Bytes(rest), n - |b|);
      } else {
        BytesFront(b[n..], rest);
        assert b == b[..n] + b[n..];
        assert (b + Bytes(rest))[..n] == b[..n];
      }
    }
  }

  lemma CutKeeps(blocks: seq<Block>, n: nat)
    requires blocks != []
    ensures Upto(blocks[0], n) + Bytes(CutFirst(blocks, n)) == Bytes(blocks)
  {
    BytesHead(blocks);
    hide Bytes;
    var b, rest := blocks[0], blocks[1..];
    if |b| > n {
      BytesFront(b[n..], rest);
      CutOnce(b, Bytes(rest), n);
    }
  }

  lemma BytesHead(blocks: seq<Block>)
    requires blocks != []
    ensures Bytes(blocks) == blocks[0] + Bytes(blocks[1..])
  {
  }

  lemma CutOnce(b: seq<nat>, q: seq<nat>, n: nat)
    requires n <= |b|
    ensures b[..n] + (b[n..] + q) == b + q
  {
    assert b == b[..n] + b[n..];
  }

  /** The blocks in a reader's hand: more than one only if they fit whole. */
  predicate HandOk(s: State)
  {
    s.hand.Some? ==> var h := s.hand.value; |h.first| > 0 && (|h.first| > 1 ==> |Bytes(h.first)| <= h.n)
  }

  function Held(s: State): seq<nat>
  {
    if s.hand.None? then [] else Bytes(s.hand.value.first)
  }

  /** How many bytes the reader will put back. */
  function Rest(s: State): nat
  {
    if s.hand.None? || |Held(s)| <= s.hand.value.n then 0 else |Held(s)| - s.hand.value.n
  }

  lemma GrabFacts(coalesce: bool, s: State, n: nat)
    requires GrabFrom(coalesce, s, n).Some?
    ensures var t := GrabFrom(coalesce, s, n).value;
      && HandOk(t) && Held(s) == [] && Held(t) + Bytes(t.blocks) == Bytes(s.blocks)
      && t.got == s.got && t.put == s.put && t.closed == s.closed
      && (s.closed && s.blocks == [] ==> t.blocks == [])
  {
    hide Bytes, SkipEmpty, Fit;
    SkipKeeps(s.blocks);
    assert coalesce && s.blocks == [] ==> SkipEmpty(s.blocks) == [] by { NoneSkipped(); }
    var blocks := if coalesce then SkipEmpty(s.blocks) else s.blocks;
    var k := if coalesce then 1 + Fit(blocks[1..], n - |blocks[0]|) else 1;
    BytesAppend(blocks[..k], blocks[k..]);
    assert blocks == blocks[..k] + blocks[k..];
    if k > 1 { GrabFits(blocks, n); }
  }

  lemma NoneSkipped()
    ensures SkipEmpty([]) == []
  {
  }

  /** More than one block is taken only when all of them fit. */
  lemma GrabFits(blocks: seq<Block>, n: nat)
    requires |blocks| > 0
    ensures var k := 1 + Fit(blocks[1..], n - |blocks[0]|); k > 1 ==> k <= |blocks| && |Bytes(blocks[..k])| <= n
  {
    var k := 1 + Fit(blocks[1..], n - |blocks[0]|);
    if k > 1 {
      FitBound(blocks[1..], n - |blocks[0]|);
      hide Fit, Bytes;
      assert blocks[..k] == [blocks[0]] + blocks[1..][..k - 1];
      BytesFront(blocks[0], blocks[1..][..k - 1]);
    }
  }

  lemma {:induction false} LeftNothing(first: seq<Block>, n: nat)
    requires |Bytes(first)| <= n
    ensures Left(first, n) == []
  {
    if first != [] {
      LeftNothing(first[1..], n - |first[0]|);
    }
  }

  lemma BackFacts(s: State)
    requires HandOk(s) && s.hand.Some?
    ensures var t, n := PutBack(s).value, |Held(s)| - Rest(s);
      && t.hand.None? && t.got == s.got + Held(s)[..n] && Bytes(t.blocks) == Held(s)[n..] + Bytes(s.blocks)
      && t.put == s.put && t.closed == s.closed && (Rest(s) == 0 ==> t.blocks == s.blocks) && (Rest(s) > 0 ==> t.blocks != [])
  {
    var h := s.hand.value;
    var B := Bytes(h.first);
    if |B| <= h.n {
      LeftNothing(h.first, h.n);
      assert B[..|B|] == B && B[|B|..] + Bytes(s.blocks) == Bytes(s.blocks);
    } else {
      var b := h.first[0];
      assert h.first == [b];
      BytesOne(b);
      BytesFront(b[h.n..], s.blocks);
      assert Left(h.first, h.n) == [b[h.n..]] + h.first[1..];
    }
  }

  lemma TakeFacts(s: State, op: Op)
    requires (op.Bread? || op.Get? || op.Consume? || op.Discard?) && TakeOut(s, op).Some?
    ensures var t := TakeOut(s, op).value;
      && t == s.(blocks := t.blocks, got := t.got) && |s.got| <= |t.got| && t.got[..|s.got|] == s.got
      && t.got[|s.got|..] + Bytes(t.blocks) == Bytes(s.blocks) && (s.blocks == [] ==> t.blocks == [])
  {
    match op
    case Bread(n) => CutKeeps(s.blocks, n);
    case Get => CutKeeps(s.blocks, |s.blocks[0]|);
    case Consume(n) =>
      SkipKeeps(s.blocks);
      if SkipEmpty(s.blocks) != [] { CutKeeps(SkipEmpty(s.blocks), n); }
    case Discard(n) => DropKeeps(s.blocks, n);
  }

  // Order over runs.

  /** Everything that was accepted and has not gone with a close: out, in hand, and queued. */
  function All(s: State): seq<nat>
  {
    s.got + Held(s) + Bytes(s.blocks)
  }

  /** What came out is the beginning of what went in. */
  predicate InOrder(s: State)
  {
    s.got == From(0, |s.got|)
  }

  /** The operation finds bytes to take out while a reader holds some. */
  predicate Overtakes(s: State, op: Op)
  {
    Held(s) != [] && match op
      case Get => s.blocks != [] && s.blocks[0] != []
      case Consume(n) => n > 0 && SkipEmpty(s.blocks) != []
      case Discard(n) => n > 0 && SkipEmpty(s.blocks) != []
      case _ => false
  }

  /** None of the first n operations overtakes. */
  ghost predicate NobodyOvertakes(r: seq<State>, ops: seq<Op>, n: nat)
    requires n <= |ops| && n <= |r|
  {
    forall k :: 0 <= k < n ==> !Overtakes(r[k], ops[k])
  }

  lemma FromJoin(a: nat, m: nat, n: nat)
    ensures From(a, m) + From(a + m, n) == From(a, m + n)
  {
  }

  /** The accepted bytes stay all there, and stay in order unless somebody overtakes. */
  ghost predicate Accounted(s: State, op: Op, t: State)
  {
    && HandOk(t) && s.got <= t.got && t.put >= s.put && (t.closed <==> s.closed)
    && multiset(All(t)) == multiset(All(s) + From(s.put, t.put - s.put))
    && (!Overtakes(s, op) ==> All(t) == All(s) + From(s.put, t.put - s.put))
    && (Overtakes(s, op) ==> |t.got| > |s.got| && Held(s) + t.got[|s.got|..] + Bytes(t.blocks) == Held(s) + Bytes(s.blocks))
  }

  lemma StepAll(coalesce: bool, s: State, op: Op)
    requires HandOk(s) && Step(coalesce, s, op).Some? && !op.Close?
    ensures Accounted(s, op, Step(coalesce, s, op).value)
  {
    hide Accounted, HandOk, GrabFrom, PutBack, TakeOut;
    match op
    case Put(n) => PutAccounted(s, n);
    case Grab(n) => GrabAccounted(coalesce, s, n);
    case Back => BackAccounted(s);
    case _ => TakeAccounted(s, op);
  }

  lemma PutAccounted(s: State, n: nat)
    requires HandOk(s) && !s.closed
    ensures Accounted(s, Put(n), s.(blocks := s.blocks + [From(s.put, n)], put := s.put + n))
  {
    PutAll(s, n);
    hide Bytes, All, From;
  }

  lemma GrabAccounted(coalesce: bool, s: State, n: nat)
    requires GrabFrom(coalesce, s, n).Some?
    ensures Accounted(s, Grab(n), GrabFrom(coalesce, s, n).value)
  {
    hide Bytes, GrabFrom, Held;
    GrabFacts(coalesce, s, n);
    var t := GrabFrom(coalesce, s, n).value;
    Same(s.got, [], Bytes(s.blocks), Held(t), Bytes(t.blocks));
    NoneNew(All(s), s.put);
  }

  lemma BackAccounted(s: State)
    requires HandOk(s) && PutBack(s).Some?
    ensures Accounted(s, Back, PutBack(s).value)
  {
    HandSome(s);
    hide Bytes, PutBack, Rest, Held, All, From, HandOk;
    BackFacts(s);
    NoHand(PutBack(s).value);
    BackAll(s, PutBack(s).value);
  }

  lemma HandSome(s: State)
    ensures PutBack(s).Some? <==> s.hand.Some?
    ensures Rest(s) <= |Held(s)|
  {
  }

  lemma NoHand(s: State)
    requires s.hand.None?
    ensures HandOk(s) && Held(s) == []
  {
  }

  lemma TakeAccounted(s: State, op: Op)
    requires HandOk(s) && (op.Bread? || op.Get? || op.Consume? || op.Discard?) && TakeOut(s, op).Some?
    ensures Accounted(s, op, TakeOut(s, op).value)
  {
    TakeFacts(s, op);
    TakesSome(s, op);
    if Overtakes(s, op) { HoldsSome(s, op); }
    TakeOutAll(s, TakeOut(s, op).value);
    hide TakeOut, Overtakes, All, From, Bytes, Held;
  }

  /** With bytes in a reader's hand, an operation takes some out just when it overtakes. */
  lemma TakesSome(s: State, op: Op)
    requires (op.Bread? || op.Get? || op.Consume? || op.Discard?) && TakeOut(s, op).Some?
    ensures Held(s) != [] ==> (Overtakes(s, op) <==> |TakeOut(s, op).value.got| > |s.got|)
  {
    if op.Discard? { SkipKeeps(s.blocks); SomeBytes(SkipEmpty(s.blocks)); }
    if op.Consume? { SkipKeeps(s.blocks); }
    hide Bytes, SkipEmpty;
  }

  lemma SomeBytes(blocks: seq<Block>)
    requires blocks != [] ==> blocks[0] != []
    ensures Bytes(blocks) != [] <==> blocks != []
  {
  }

  lemma NoneNew(a: seq<nat>, k: nat)
    ensures a + From(k, 0) == a
  {
  }

  lemma Same(got: seq<nat>, h: seq<nat>, q: seq<nat>, h': seq<nat>, q': seq<nat>)
    requires h + q == h' + q'
    ensures got + h + q == got + h' + q'
  {
    assert got + h + q == got + (h + q);
    assert got + h' + q' == got + (h' + q');
  }

  lemma PutAll(s: State, n: nat)
    ensures var t := s.(blocks := s.blocks + [From(s.put, n)], put := s.put + n); All(t) == All(s) + From(s.put, n)
  {
    hide Bytes;
    BytesAppend(s.blocks, [From(s.put, n)]);
    BytesOne(From(s.put, n));
    assert s.got + Held(s) + (Bytes(s.blocks) + From(s.put, n)) == s.got + Held(s) + Bytes(s.blocks) + From(s.put, n);
  }

  lemma BackAll(s: State, t: State)
    requires Held(t) == [] && t.put == s.put && Rest(s) <= |Held(s)|
    requires var n := |Held(s)| - Rest(s); t.got == s.got + Held(s)[..n] && Bytes(t.blocks) == Held(s)[n..] + Bytes(s.blocks)
    ensures All(t) == All(s) + From(s.put, 0) && s.got <= t.got
  {
    hide Bytes, Held, Rest;
    Divide(s.got, Held(s), Bytes(s.blocks), |Held(s)| - Rest(s));
    NoneNew(All(s), s.put);
  }

  lemma Divide(got: seq<nat>, h: seq<nat>, q: seq<nat>, n: nat)
    requires n <= |h|
    ensures (got + h[..n]) + [] + (h[n..] + q) == got + h + q
  {
    assert h == h[..n] + h[n..];
  }

  lemma TakeOutAll(s: State, t: State)
    requires t == s.(blocks := t.blocks, got := t.got) && |s.got| <= |t.got| && t.got[..|s.got|] == s.got
    requires t.got[|s.got|..] + Bytes(t.blocks) == Bytes(s.blocks)
    ensures multiset(All(t)) == multiset(All(s) + From(s.put, 0))
    ensures Held(s) == [] || |t.got| == |s.got| ==> All(t) == All(s) + From(s.put, 0)
    ensures Held(s) + t.got[|s.got|..] + Bytes(t.blocks) == Held(s) + Bytes(s.blocks)
  {
    hide Bytes, Held, From;
    var x := t.got[|s.got|..];
    assert t.got == s.got + x && Held(t) == Held(s) by { SameHeld(s, t); }
    TakenPast(s.got, Held(s), x, Bytes(t.blocks));
    NoneNew(All(s), s.put);
  }

  lemma SameHeld(s: State, t: State)
    requires s.hand == t.hand
    ensures Held(s) == Held(t)
  {
  }

  /** The bytes x taken from the queue, past those held. */
  lemma TakenPast(got: seq<nat>, h: seq<nat>, x: seq<nat>, q: seq<nat>)
    ensures multiset(got + x + h + q) == multiset(got + h + (x + q))
    ensures h == [] || x == [] ==> got + x + h + q == got + h + (x + q)
    ensures h + x + q == h + (x + q)
  {
  }

  /** Before a close nothing is lost, and nothing comes out twice, whoever takes bytes and when. */
  lemma {:induction false} NothingLost(coalesce: bool, r: seq<State>, ops: seq<Op>, k: nat)
    requires IsRun(coalesce, r, ops) && k < |r| && !r[k].closed
    ensures HandOk(r[k]) && multiset(All(r[k])) == multiset(From(0, r[k].put))
    ensures forall j :: 0 <= j <= k ==> !r[j].closed
  {
    hide Step, All, From;
    if k == 0 {
      NothingYet(r[0]);
    } else {
      assert Step(coalesce, r[k-1], ops[k-1]) == Some(r[k-1+1]);
      ClosedStays(coalesce, r[k-1], ops[k-1]);
      NothingLost(coalesce, r, ops, k - 1);
      StepAll(coalesce, r[k-1], ops[k-1]);
      FromJoin(0, r[k-1].put, r[k].put - r[k-1].put);
    }
  }

  lemma NothingYet(s: State)
    requires Init(s)
    ensures HandOk(s) && All(s) == [] == From(0, 0) && s.got == []
  {
  }

  lemma ClosedStays(coalesce: bool, s: State, op: Op)
    requires Step(coalesce, s, op).Some?
    ensures s.closed ==> Step(coalesce, s, op).value.closed
    ensures op.Close? ==> Step(coalesce, s, op).value.closed
  {
  }

  /** The order is lost by overtaking. */
  lemma OutOfOrder(s: State, t: State)
    requires All(s) == From(0, s.put) && s.got <= t.got && Held(s) != [] && |t.got| > |s.got|
    requires Held(s) + t.got[|s.got|..] + Bytes(t.blocks) == Held(s) + Bytes(s.blocks)
    ensures !InOrder(t)
  {
    hide Bytes;
    var i, h := |s.got|, |Held(s)|;
    var x := t.got[i..];
    var all := s.got + (Held(s) + x + Bytes(t.blocks));
    assert all == s.got + (Held(s) + Bytes(s.blocks)) == All(s);
    assert all[i + h] == x[0] == t.got[i];
    assert All(s)[i + h] == i + h;
  }

  lemma PrefixOrder(got: seq<nat>, more: seq<nat>)
    requires got <= more && more == From(0, |more|)
    ensures got == From(0, |got|)
  {
  }

  lemma GotPrefix(s: State)
    requires All(s) == From(0, s.put)
    ensures InOrder(s)
  {
    hide Bytes, Held;
    assert s.got == All(s)[..|s.got|];
  }

  /**
   * What comes out is a prefix of what went in if and only if nobody ever takes bytes past those a reader holds. Then
   * what is out, in hand and queued makes up all that was accepted, in order.
   */
  lemma {:induction false} OrderExactly(coalesce: bool, r: seq<State>, ops: seq<Op>, k: nat)
    requires IsRun(coalesce, r, ops) && k < |r| && !r[k].closed
    ensures InOrder(r[k]) <==> NobodyOvertakes(r, ops, k)
    ensures InOrder(r[k]) ==> All(r[k]) == From(0, r[k].put)
  {
    hide Step, All, Overtakes, From, InOrder;
    if k == 0 {
      NothingYet(r[0]);
      GotPrefix(r[0]);
    } else {
      NothingLost(coalesce, r, ops, k);
      NothingLost(coalesce, r, ops, k - 1);
      OrderExactly(coalesce, r, ops, k - 1);
      assert Step(coalesce, r[k-1], ops[k-1]) == Some(r[k-1+1]);
      ClosedStays(coalesce, r[k-1], ops[k-1]);
      StepOrder(coalesce, r[k-1], ops[k-1]);
    }
  }

  lemma StepOrder(coalesce: bool, s: State, op: Op)
    requires HandOk(s) && Step(coalesce, s, op).Some? && !op.Close? && (InOrder(s) ==> All(s) == From(0, s.put))
    ensures var t := Step(coalesce, s, op).value;
      (InOrder(t) <==> InOrder(s) && !Overtakes(s, op)) && (InOrder(t) ==> All(t) == From(0, t.put))
  {
    hide Step, Bytes, Held, Overtakes, From, InOrder, All;
    var t := Step(coalesce, s, op).value;
    StepAll(coalesce, s, op);
    if InOrder(t) { InOrderBefore(s, t); }
    if InOrder(s) {
      if Overtakes(s, op) {
        HoldsSome(s, op);
        OutOfOrder(s, t);
      } else {
        FromJoin(0, s.put, t.put - s.put);
        GotPrefix(t);
      }
    }
  }

  lemma InOrderBefore(s: State, t: State)
    requires s.got <= t.got && InOrder(t)
    ensures InOrder(s)
  {
    PrefixOrder(s.got, t.got);
  }

  lemma HoldsSome(s: State, op: Op)
    requires Overtakes(s, op)
    ensures Held(s) != []
  {
  }

  // A closed queue.

  /** A closed and empty queue stays empty unless a reader that had taken too long a block puts the rest back. */
  lemma EmptyExactly(coalesce: bool, s: State, op: Op)
    requires HandOk(s) && s.closed && s.blocks == [] && Step(coalesce, s, op).Some?
    ensures Step(coalesce, s, op).value.blocks == [] <==> !(op.Back? && Rest(s) > 0)
  {
    hide Bytes;
    match op
    case Back => BackFacts(s);
    case Grab(n) =>
    case Close =>
    case Put(n) =>
    case _ => TakeFacts(s, op);
  }

  lemma {:induction false} HandsOk(coalesce: bool, r: seq<State>, ops: seq<Op>, k: nat)
    requires IsRun(coalesce, r, ops) && k < |r|
    ensures HandOk(r[k])
  {
    if k == 0 {
      NothingYet(r[0]);
    } else {
      hide Step, HandOk;
      HandsOk(coalesce, r, ops, k - 1);
      assert Step(coalesce, r[k-1], ops[k-1]) == Some(r[k-1+1]);
      if ops[k-1].Close? { CloseHand(coalesce, r[k-1]); } else { StepAll(coalesce, r[k-1], ops[k-1]); }
    }
  }

  lemma CloseHand(coalesce: bool, s: State)
    ensures var t := Step(coalesce, s, Close).value; HandOk(t) == HandOk(s) && t.closed && t.blocks == []
  {
  }

  ghost predicate EmptyWhenClosed(s: State)
  {
    s.closed ==> s.blocks == []
  }

  /** A reader puts the rest of a block back on a queue that has been closed meanwhile. */
  predicate PutsBackClosed(s: State, op: Op)
  {
    s.closed && op.Back? && Rest(s) > 0
  }

  /** In a run a closed queue is always empty if and only if no reader puts anything back on it. */
  lemma {:induction false} ClosedEmptyExactly(coalesce: bool, r: seq<State>, ops: seq<Op>, n: nat)
    requires IsRun(coalesce, r, ops) && n < |r|
    ensures (forall k :: 0 <= k <= n ==> EmptyWhenClosed(r[k])) <==> (forall k :: 0 <= k < n ==> !PutsBackClosed(r[k], ops[k]))
  {
    hide Step, EmptyWhenClosed, PutsBackClosed;
    if n == 0 {
      assert EmptyWhenClosed(r[0]) by { OpenAtFirst(r[0]); }
    } else {
      ClosedEmptyExactly(coalesce, r, ops, n - 1);
      HandsOk(coalesce, r, ops, n - 1);
      assert Step(coalesce, r[n-1], ops[n-1]) == Some(r[n-1+1]);
      if EmptyWhenClosed(r[n-1]) { StepEmpty(coalesce, r[n-1], ops[n-1]); }
    }
  }

  lemma OpenAtFirst(s: State)
    requires Init(s)
    ensures EmptyWhenClosed(s)
  {
  }

  lemma StepEmpty(coalesce: bool, s: State, op: Op)
    requires HandOk(s) && EmptyWhenClosed(s) && Step(coalesce, s, op).Some?
    ensures EmptyWhenClosed(Step(coalesce, s, op).value) <==> !PutsBackClosed(s, op)
  {
    hide Step, Rest;
    if s.closed {
      ClosedStays(coalesce, s, op);
      EmptyExactly(coalesce, s, op);
    } else if op.Close? {
      CloseHand(coalesce, s);
    } else {
      StepAll(coalesce, s, op);
    }
  }

  /** A run of five operations. */
  lemma FiveSteps(coalesce: bool, r: seq<State>, ops: seq<Op>)
    requires |r| == 6 && |ops| == 5 && Init(r[0])
    requires Step(coalesce, r[0], ops[0]) == Some(r[1]) && Step(coalesce, r[1], ops[1]) == Some(r[2])
    requires Step(coalesce, r[2], ops[2]) == Some(r[3]) && Step(coalesce, r[3], ops[3]) == Some(r[4])
    requires Step(coalesce, r[4], ops[4]) == Some(r[5])
    ensures IsRun(coalesce, r, ops)
  {
    hide Step, Init;
  }

  lemma PutOne(coalesce: bool, s: State, b: Block)
    requires !s.closed && From(s.put, |b|) == b
    ensures Step(coalesce, s, Put(|b|)) == Some(s.(blocks := s.blocks + [b], put := s.put + |b|))
  {
  }

  lemma GetOne(coalesce: bool, s: State, b: Block)
    requires s.blocks == [b]
    ensures Step(coalesce, s, Get) == Some(s.(blocks := [], got := s.got + b))
  {
    assert s.blocks[1..] == [];
  }

  lemma BackOne(coalesce: bool, s: State, b: Block, n: nat)
    requires s.hand == Some(Hand([b], n)) && |b| >= n
    ensures Step(coalesce, s, Back) ==
      Some(s.(blocks := if |b| > n then [b[n..]] + s.blocks else s.blocks, hand := None, got := s.got + b[..n]))
  {
    BytesOne(b);
    assert [b][1..] == [];
    assert Left([b], n) == if |b| > n then [b[n..]] + [] else Left([], n - |b|);
    assert Upto(b, n) == b[..n];
  }

  lemma GrabOne(coalesce: bool, s: State, b: Block, n: nat)
    requires s.hand.None? && |s.blocks| > 0 && s.blocks[0] == b && |b| >= n > 0 && forall k :: 0 <= k < |s.blocks| ==> s.blocks[k] != []
    ensures Step(coalesce, s, Grab(n)) == Some(s.(blocks := s.blocks[1..], hand := Some(Hand([b], n))))
  {
    assert SkipEmpty(s.blocks) == s.blocks;
    assert Fit(s.blocks[1..], n - |b|) == 0;
    assert s.blocks[..1] == [b];
  }

  const Four: Block := [0, 1, 2, 3]
  const Start: State := State([], None, false, 0, [])
  const Written: State := State([Four], None, false, 4, [])
  const Copying: State := State([], Some(Hand([Four], 1)), false, 4, [])
  const Returned: State := State([[1, 2, 3]], None, true, 4, [0])
  const Emptied: State := State([], None, true, 4, Four)

  /** A run in which bytes come out of a closed queue: four are written, and it is closed while one of them is being read. */
  lemma BytesAfterClose(coalesce: bool)
    ensures IsRun(coalesce, [Start, Written, Copying, Copying.(closed := true), Returned, Emptied], [Put(4), Grab(1), Close, Back, Get])
  {
    hide Step;
    PutOne(coalesce, Start, Four) by { assert From(0, 4) == Four; }
    GrabOne(coalesce, Written, Four, 1);
    BackOne(coalesce, Copying.(closed := true), Four, 1);
    GetOne(coalesce, Returned, [1, 2, 3]);
    assert Start.blocks + [Four] == Written.blocks && Written.blocks[1..] == Copying.blocks;
    assert [Four[1..]] + Copying.blocks == Returned.blocks && Four[1..] == [1, 2, 3];
    assert Copying.got + Four[..1] == Returned.got && Returned.got + [1, 2, 3] == Emptied.got;
    assert Step(coalesce, Copying, Close) == Some(Copying.(closed := true)) by { CloseOne(coalesce, Copying); }
    FiveSteps(coalesce, [Start, Written, Copying, Copying.(closed := true), Returned, Emptied], [Put(4), Grab(1), Close, Back, Get]);
  }

  lemma CloseOne(coalesce: bool, s: State)
    requires s.blocks == []
    ensures Step(coalesce, s, Close) == Some(s.(closed := true))
  {
  }

  const One: State := State([[0]], None, false, 1, [])
  const Two: State := State([[0], [1]], None, false, 2, [])
  const Holding: State := State([[1]], Some(Hand([[0]], 1)), false, 2, [])
  const Passed: State := State([], Some(Hand([[0]], 1)), false, 2, [1])
  const Swapped: State := State([], None, false, 2, [1, 0])

  /** A run in which the order is lost: two blocks are written, and the second is taken while the first is being read. */
  lemma Overtaken(coalesce: bool)
    ensures IsRun(coalesce, [Start, One, Two, Holding, Passed, Swapped], [Put(1), Put(1), Grab(1), Get, Back])
    ensures !InOrder(Swapped)
  {
    hide Step;
    assert From(0, 2)[0] == 0;
    PutOne(coalesce, Start, [0]) by { assert From(0, 1) == [0]; }
    PutOne(coalesce, One, [1]) by { assert From(1, 1) == [1]; }
    GrabOne(coalesce, Two, [0], 1);
    GetOne(coalesce, Holding, [1]);
    BackOne(coalesce, Passed, [0], 1);
    assert Start.blocks + [[0]] == One.blocks && One.blocks + [[1]] == Two.blocks && Two.blocks[1..] == Holding.blocks;
    assert Holding.got + [1] == Passed.got && Passed.got + [0][..1] == Swapped.got;
    FiveSteps(coalesce, [Start, One, Two, Holding, Passed, Swapped], [Put(1), Put(1), Grab(1), Get, Back]);
  }
}
