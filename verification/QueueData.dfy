/** The bytes of a queue (qio.c): blocks written at one end, read, consumed or discarded at the other. */
module QueueData {
  import opened CTypes
  import opened Options

  /** A block: its unread bytes, and the room it takes however few they are. */
  datatype Block = Block(data: seq<Byte>, room: nat)

  /** The most bytes written as one block. */
  const MAXATOMIC: nat := 32 * 1024

  /** The bytes of blocks in order. */
  function Bytes(blocks: seq<Block>): seq<Byte>
  {
    if blocks == [] then [] else blocks[0].data + Bytes(blocks[1..])
  }

  function Rooms(blocks: seq<Block>): nat
  {
    if blocks == [] then 0 else blocks[0].room + Rooms(blocks[1..])
  }

  lemma {:induction false} BytesAppend(a: seq<Block>, b: seq<Block>)
    ensures Bytes(a + b) == Bytes(a) + Bytes(b) && Rooms(a + b) == Rooms(a) + Rooms(b)
  {
    if a == [] {
      assert a + b == b;
    } else {
      assert (a + b)[0] == a[0] && (a + b)[1..] == a[1..] + b;
      BytesAppend(a[1..], b);
    }
  }

  lemma BytesOne(b: Block)
    ensures Bytes([b]) == b.data && Rooms([b]) == b.room
  {
    assert [b][1..] == [];
  }

  /** Adding a block at the back, and putting one in front. */
  lemma BytesAdd(blocks: seq<Block>, b: Block)
    ensures Bytes(blocks + [b]) == Bytes(blocks) + b.data && Rooms(blocks + [b]) == Rooms(blocks) + b.room
    ensures Bytes([b] + blocks) == b.data + Bytes(blocks) && Rooms([b] + blocks) == b.room + Rooms(blocks)
  {
    BytesOne(b);
    BytesAppend(blocks, [b]);
    assert ([b] + blocks)[1..] == blocks;
  }

  lemma BytesHead(blocks: seq<Block>)
    requires blocks != []
    ensures Bytes(blocks) == blocks[0].data + Bytes(blocks[1..]) && Rooms(blocks) == blocks[0].room + Rooms(blocks[1..])
  {
  }

  lemma HasBytes(blocks: seq<Block>)
    requires blocks != [] && blocks[0].data != []
    ensures Bytes(blocks) != []
  {
  }

  lemma BytesNone()
    ensures Bytes([]) == [] && Rooms([]) == 0
  {
  }

  /** The blocks from the first that has bytes on. */
  function SkipEmpty(blocks: seq<Block>): (r: seq<Block>)
    ensures r != [] ==> r[0].data != []
  {
    if blocks == [] || blocks[0].data != [] then blocks else SkipEmpty(blocks[1..])
  }

  /** How many of the blocks fit whole into what is left of a read. */
  function Fit(blocks: seq<Block>, room: int): (k: nat)
    ensures k <= |blocks|
  {
    if blocks == [] || |blocks[0].data| > room then 0 else 1 + Fit(blocks[1..], room - |blocks[0].data|)
  }

  /** How many blocks a read of n bytes takes off: the first, and when coalescing as many more as fit whole. */
  function Taken(blocks: seq<Block>, n: nat, coalesce: bool): (k: nat)
    requires blocks != []
    ensures 0 < k <= |blocks|
  {
    if coalesce then 1 + Fit(blocks[1..], n - |blocks[0].data|) else 1
  }

  /** The blocks that a read of n bytes leaves when it took k off: a first one that was too long is cut, but for messages. */
  function AfterRead(blocks: seq<Block>, k: nat, n: nat, room: nat, msg: bool): seq<Block>
    requires 0 < k <= |blocks|
  {
    if !msg && k == 1 && |blocks[0].data| > n then [Block(blocks[0].data[n..], room)] + blocks[1..] else blocks[k..]
  }

  /** The blocks without their first n bytes; a block that loses some keeps its room. */
  function Dropped(blocks: seq<Block>, n: nat): seq<Block>
  {
    if blocks == [] || n == 0 then blocks
    else if |blocks[0].data| <= n then Dropped(blocks[1..], n - |blocks[0].data|)
    else [Block(blocks[0].data[n..], blocks[0].room)] + blocks[1..]
  }

  lemma DroppedHead(blocks: seq<Block>, n: nat)
    ensures blocks == [] || n == 0 ==> Dropped(blocks, n) == blocks
    ensures blocks != [] && n > 0 && |blocks[0].data| <= n ==> Dropped(blocks, n) == Dropped(blocks[1..], n - |blocks[0].data|)
    ensures blocks != [] && 0 < n < |blocks[0].data| ==>
      Dropped(blocks, n) == Dropped([Block(blocks[0].data[n..], blocks[0].room)] + blocks[1..], 0)
  {
  }

  /** What a read gives back: bytes, the end of the file, an error on a closed queue, or nothing yet. */
  datatype ReadResult = Data(bytes: seq<Byte>) | Eof | Hungup | WouldWait

  /** What a reader that finds no block gets: on a closed queue the end of the file three times, and then the error. */
  function Nothing(closed: bool, eof: nat): ReadResult
  {
    if !closed then WouldWait else if eof >= 3 then Hungup else Eof
  }

  class Queue {
    const limit: nat
    const coalesce: bool
    const msg: bool
    var blocks: seq<Block>
    var len: int
    var dlen: int
    var starve: bool
    var flow: bool
    var closed: bool
    var eof: nat
    /** Everything accepted, and everything taken out, since the queue was opened. */
    ghost var accepted: seq<Byte>
    ghost var removed: seq<Byte>

    /** dlen counts the queued bytes, len the room of the blocks. */
    ghost predicate Counts()
      reads this
    {
      len == Rooms(blocks) && dlen == |Bytes(blocks)|
    }

    /** And what came in came out in order or is still here, while the queue is open and not of messages. */
    ghost predicate Valid()
      reads this
    {
      Counts() && (!msg && !closed ==> removed + Bytes(blocks) == accepted)
    }

    /** What has come out is the beginning of what went in, and what is queued is all the rest. */
    lemma FirstInFirstOut()
      requires Valid() && !msg && !closed
      ensures removed <= accepted && Bytes(blocks) == accepted[|removed|..] && dlen == |accepted| - |removed|
    {
      assert (removed + Bytes(blocks))[|removed|..] == Bytes(blocks);
    }

    constructor (limit: nat, msg: bool, coalesce: bool)
      ensures Valid() && blocks == [] && starve && !flow && !closed && accepted == removed == [] && eof == 0
      ensures this.limit == limit && this.msg == msg && this.coalesce == coalesce
    {
      this.limit, this.msg, this.coalesce := limit, msg, coalesce;
      blocks, len, dlen, eof := [], 0, 0, 0;
      starve, flow, closed := true, false, false;
      accepted, removed := [], [];
    }

    /** Takes the first block off. */
    method qremove() returns (b: Block)
      requires Counts() && blocks != []
      modifies `blocks, `len, `dlen
      ensures Counts() && b == old(blocks[0]) && blocks == old(blocks[1..])
      ensures b.data + Bytes(blocks) == Bytes(old(blocks))
    {
      b := blocks[0];
      blocks := blocks[1..];
      dlen := dlen - |b.data|;
      len := len - b.room;
    }

    /** Puts a block back in front. */
    method qputback(b: Block)
      requires Counts()
      modifies `blocks, `len, `dlen
      ensures Counts() && blocks == [b] + old(blocks) && Bytes(blocks) == b.data + Bytes(old(blocks))
    {
      BytesAdd(blocks, b);
      blocks := [b] + blocks;
      len := len + b.room;
      dlen := dlen + |b.data|;
    }

    /** Puts a block at the end. */
    method append(b: Block)
      requires Counts()
      modifies `blocks, `len, `dlen
      ensures Counts() && blocks == old(blocks) + [b] && Bytes(blocks) == Bytes(old(blocks)) + b.data
    {
      BytesAdd(blocks, b);
      blocks := blocks + [b];
      len := len + b.room;
      dlen := dlen + |b.data|;
    }

    /** Lets a flow-controlled writer go when less than bound is queued. */
    method restart(bound: nat) returns (dowakeup: bool)
      modifies `flow
      ensures dowakeup == (old(flow) && len < bound) && flow == (old(flow) && !dowakeup)
    {
      dowakeup := false;
      if flow && len < bound {
        flow := false;
        dowakeup := true;
      }
    }

    /** Adds a block, up to where the writer would wait for room; fails on a closed queue. */
    method qbwrite(b: Block) returns (ok: bool, dowakeup: bool)
      requires Valid()
      modifies this
      ensures Valid() && closed == old(closed) && flow == old(flow) && removed == old(removed)
      ensures ok == !closed && (dowakeup <==> ok && old(starve)) && starve == (old(starve) && !ok) && eof == old(eof)
      ensures Bytes(blocks) == if ok then Bytes(old(blocks)) + b.data else Bytes(old(blocks))
      ensures accepted == if ok then old(accepted) + b.data else old(accepted)
      ensures blocks == if ok then old(blocks) + [b] else old(blocks)
    {
      if closed {
        return false, false;
      }
      append(b);
      accepted := accepted + b.data;
      dowakeup := starve;
      starve := false;
      ok := true;
    }

    /** Writes bytes as blocks of at most MAXATOMIC, only one on a queue of messages. */
    method qwrite(vp: seq<Byte>, room: seq<Byte> -> nat) returns (ok: bool)
      requires Valid()
      modifies this
      ensures Valid() && closed == old(closed) && flow == old(flow) && removed == old(removed)
      ensures ok == !closed && starve == (old(starve) && !ok) && eof == old(eof)
      ensures ok && !msg ==> Bytes(blocks) == Bytes(old(blocks)) + vp && accepted == old(accepted) + vp
      ensures var m := Upto(vp, MAXATOMIC);
        ok && msg ==> blocks == old(blocks) + [Block(m, room(m))] && accepted == old(accepted) + m
      ensures !ok ==> blocks == old(blocks) && accepted == old(accepted)
    {
      hide Bytes, Rooms, Upto;
      var sofar := 0;
      ok := true;
      while true
        invariant Valid() && closed == old(closed) && flow == old(flow) && removed == old(removed)
        invariant 0 <= sofar <= |vp| && ok && (sofar == 0 || sofar < |vp|) && (sofar > 0 ==> !closed)
        invariant starve == (old(starve) && sofar == 0) && eof == old(eof)
        invariant Bytes(blocks) == Bytes(old(blocks)) + vp[..sofar] && accepted == old(accepted) + vp[..sofar]
        invariant sofar == 0 ==> blocks == old(blocks)
        invariant sofar > 0 ==> !msg
        decreases |vp| - sofar
      {
        var n := |vp| - sofar;
        if n > MAXATOMIC {
          n := MAXATOMIC;
        }
        var data := vp[sofar..sofar + n];
        var wake;
        ok, wake := qbwrite(Block(data, room(data)));
        if !ok {
          return;
        }
        if sofar == 0 { FirstPiece(vp, n); }
        NextPiece(Bytes(old(blocks)), vp, sofar, n);
        NextPiece(old(accepted), vp, sofar, n);
        sofar := sofar + n;
        if !(sofar < |vp| && !msg) {
          break;
        }
      }
      assert sofar == |vp| ==> vp[..sofar] == vp;
    }

    /** Adds bytes from an interrupt, or refuses them on a closed or full queue. */
    method qproduce(vp: seq<Byte>, room: nat) returns (n: int, dowakeup: bool)
      requires Valid()
      modifies this
      ensures Valid() && closed == old(closed) && removed == old(removed)
      ensures n == if old(closed) || old(len) >= limit then -1 else |vp|
      ensures Bytes(blocks) == if n >= 0 then Bytes(old(blocks)) + vp else Bytes(old(blocks))
      ensures accepted == if n >= 0 then old(accepted) + vp else old(accepted)
      ensures flow == (old(flow) || (!closed && len >= limit))
      ensures (dowakeup <==> n >= 0 && old(starve)) && starve == (old(starve) && n < 0) && eof == old(eof)
      ensures n < 0 ==> blocks == old(blocks)
    {
      if closed {
        return -1, false;
      }
      if len >= limit {
        flow := true;
        return -1, false;
      }
      append(Block(vp, room));
      accepted := accepted + vp;
      dowakeup := starve;
      starve := false;
      if len >= limit {
        flow := true;
      }
      n := |vp|;
    }

    /** That nothing was found has been noted: on a closed queue it is counted, and on another the reader starves. */
    ghost predicate Noted(was: nat, starved: bool)
      reads this
    {
      eof == (if closed then was + 1 else was) && starve == (starved || !closed)
    }

    /** What a reader finds: true when there is a block. */
    method qwait() returns (some: bool, r: ReadResult)
      requires Valid()
      modifies `starve, `eof
      ensures Valid() && some == (blocks != [])
      ensures if some then r == WouldWait && eof == old(eof) && starve == old(starve) else r == Nothing(closed, old(eof)) && Noted(old(eof), old(starve))
    {
      r := WouldWait;
      some := blocks != [];
      if !some {
        if closed {
          eof := eof + 1;
          r := if eof > 3 then Hungup else Eof;
        } else {
          starve := true;
        }
      }
    }

    /** The blocks qread takes: the first, and when coalescing as many more as fit whole. */
    method gather(n: nat) returns (first: seq<Block>, total: nat)
      requires Counts() && blocks != []
      modifies `blocks, `len, `dlen
      ensures Counts() && first + blocks == old(blocks) && first != [] && total == |Bytes(first)|
      ensures Bytes(first) + Bytes(blocks) == Bytes(old(blocks))
      ensures |first| > 1 ==> total <= n
      ensures |first| == Taken(old(blocks), n, coalesce)
      ensures coalesce && blocks != [] ==> total + |blocks[0].data| > n
    {
      hide Bytes, Rooms;
      var b := qremove();
      first := [b];
      BytesOne(b);
      total := |b.data|;
      while coalesce && blocks != [] && total + |blocks[0].data| <= n
        invariant Counts() && first + blocks == old(blocks) && first != [] && total == |Bytes(first)|
        invariant Bytes(first) + Bytes(blocks) == Bytes(old(blocks))
        invariant |first| > 1 ==> total <= n
        invariant Taken(old(blocks), n, coalesce) == |first| + (if coalesce then Fit(blocks, n - total) else 0)
        decreases |blocks|
      {
        ghost var was := first;
        b := qremove();
        BytesAdd(first, b);
        first := first + [b];
        total := total + |b.data|;
        assert was + ([b] + blocks) == first + blocks;
      }
    }

    /** The wait at the head of qread: when coalescing, empty blocks just go away. */
    method waitForData() returns (some: bool, r: ReadResult)
      requires Valid()
      modifies `blocks, `len, `dlen, `starve, `eof
      ensures Valid() && Bytes(blocks) == Bytes(old(blocks)) && some == (blocks != [])
      ensures some && coalesce ==> blocks[0].data != []
      ensures !coalesce ==> blocks == old(blocks)
      ensures coalesce ==> blocks == SkipEmpty(old(blocks))
      ensures if some then eof == old(eof) && starve == old(starve) else r == Nothing(closed, old(eof)) && Noted(old(eof), old(starve))
    {
      hide Bytes, Rooms;
      some, r := qwait();
      while some && coalesce && blocks[0].data == []
        invariant Valid() && some == (blocks != [])
        invariant Bytes(blocks) == Bytes(old(blocks))
        invariant if some then eof == old(eof) && starve == old(starve) else r == Nothing(closed, old(eof)) && Noted(old(eof), old(starve))
        invariant !coalesce ==> blocks == old(blocks)
        invariant SkipEmpty(blocks) == SkipEmpty(old(blocks))
        decreases |blocks|
      {
        var b := qremove();
        some, r := qwait();
      }
    }

    /** Takes at most n bytes out, the rest of a block cut short going back. */
    method takeBytes(n: nat) returns (bytes: seq<Byte>)
      requires Counts() && blocks != []
      modifies `blocks, `len, `dlen
      ensures Counts() && |bytes| <= n && (!msg ==> bytes + Bytes(blocks) == Bytes(old(blocks)))
      ensures n > 0 && old(blocks)[0].data != [] ==> bytes != []
      ensures coalesce && !msg ==> |bytes| == n || blocks == [] || |bytes| + |blocks[0].data| > n
      ensures !coalesce ==> bytes == Upto(old(blocks)[0].data, n)
      ensures var k := Taken(old(blocks), n, coalesce);
        bytes == Upto(Bytes(old(blocks)[..k]), n) && blocks == AfterRead(old(blocks), k, n, old(blocks)[0].room, msg)
    {
      hide Bytes, Rooms;
      BytesNone();
      var first, total := gather(n);
      assert first == old(blocks)[..|first|] && blocks == old(blocks)[|first|..];
      if old(blocks)[0].data != [] { FirstByte(old(blocks), first, blocks); }
      var rest;
      bytes, rest := bl2mem(first, n);
      if rest != [] {
        OneLeft(first, rest, bytes, n, total);
        Reassociate(bytes, [], rest[0].data, Bytes(blocks));
        if !msg {
          qputback(rest[0]);
        }
      }
    }

    /** Reads at most n bytes, or finds that it has to wait. */
    method qread(n: nat) returns (r: ReadResult, dowakeup: bool)
      requires Valid()
      modifies this
      ensures Valid() && closed == old(closed) && accepted == old(accepted)
      ensures removed == if r.Data? then old(removed) + r.bytes else old(removed)
      ensures r.Data? ==> |r.bytes| <= n && (!msg ==> r.bytes + Bytes(blocks) == Bytes(old(blocks)))
      ensures r.Data? && coalesce && n > 0 ==> r.bytes != []
      ensures r.Data? && coalesce && !msg ==> |r.bytes| == n || blocks == [] || |r.bytes| + |blocks[0].data| > n
      ensures r.Data? && !coalesce ==> old(blocks) != [] && r.bytes == Upto(old(blocks)[0].data, n)
      ensures var was := if coalesce then SkipEmpty(old(blocks)) else old(blocks);
        r.Data? ==> was != [] && (var k := Taken(was, n, coalesce); r.bytes == Upto(Bytes(was[..k]), n) && blocks == AfterRead(was, k, n, was[0].room, msg))
      ensures !r.Data? ==> Bytes(old(blocks)) == [] && blocks == [] && flow == old(flow) && !dowakeup
      ensures if r.Data? then eof == old(eof) && starve == old(starve) else r == Nothing(closed, old(eof)) && Noted(old(eof), old(starve))
      ensures r.Data? ==> (dowakeup <==> old(flow) && len < limit / 2) && (flow <==> old(flow) && !dowakeup)
    {
      hide Bytes, Rooms;
      BytesNone();
      dowakeup := false;
      var some;
      some, r := waitForData();
      if !some {
        return;
      }
      var bytes := takeBytes(n);
      removed := removed + bytes;
      dowakeup := restart(limit / 2);
      r := Data(bytes);
    }

    /** Takes the next block, cut to n bytes; but for messages the rest stays, as a block of its own. */
    method qbread(n: nat, room: nat) returns (r: ReadResult, dowakeup: bool)
      requires Valid()
      modifies this
      ensures Valid() && closed == old(closed) && accepted == old(accepted)
      ensures removed == if r.Data? then old(removed) + r.bytes else old(removed)
      ensures r.Data? <==> old(blocks) != []
      ensures r.Data? ==> r.bytes == Upto(old(blocks)[0].data, n) && (!msg ==> r.bytes + Bytes(blocks) == Bytes(old(blocks)))
      ensures r.Data? ==> (dowakeup <==> old(flow) && len < limit / 2) && (flow <==> old(flow) && !dowakeup)
      ensures r.Data? ==> blocks == AfterRead(old(blocks), 1, n, room, msg)
      ensures !r.Data? ==> blocks == old(blocks) && flow == old(flow) && !dowakeup
      ensures if r.Data? then eof == old(eof) && starve == old(starve) else r == Nothing(closed, old(eof)) && Noted(old(eof), old(starve))
    {
      hide Bytes, Rooms;
      dowakeup := false;
      var some;
      some, r := qwait();
      if !some {
        return;
      }
      var nb := qremove();
      var bytes := nb.data;
      if |nb.data| > n {
        bytes := nb.data[..n];
        if !msg {
          Cut(nb.data, n, Bytes(blocks));
          qputback(Block(nb.data[n..], room));
        }
      }
      removed := removed + bytes;
      dowakeup := restart(limit / 2);
      r := Data(bytes);
    }

    /** Takes the next block whole, without waiting. */
    method qget() returns (r: ReadResult, dowakeup: bool)
      requires Valid()
      modifies this
      ensures Valid() && closed == old(closed) && accepted == old(accepted)
      ensures removed == if r.Data? then old(removed) + r.bytes else old(removed)
      ensures (r.Data? <==> old(blocks) != []) && (!r.Data? ==> r.WouldWait? && starve)
      ensures r.Data? ==> blocks == old(blocks)[1..] && r.bytes == old(blocks)[0].data && r.bytes + Bytes(blocks) == Bytes(old(blocks))
      ensures dowakeup <==> r.Data? && old(flow) && len < limit / 2
      ensures (flow <==> old(flow) && !dowakeup) && starve == (old(starve) || !r.Data?) && eof == old(eof)
      ensures !r.Data? ==> blocks == []
    {
      hide Bytes, Rooms;
      dowakeup := false;
      r := WouldWait;
      if blocks == [] {
        starve := true;
        return;
      }
      var b := qremove();
      removed := removed + b.data;
      dowakeup := restart(limit / 2);
      r := Data(b.data);
    }

    /** Frees the empty blocks at the head. */
    method dropEmpty()
      requires Valid()
      modifies `blocks, `len, `dlen
      ensures Valid() && Bytes(blocks) == Bytes(old(blocks)) && blocks == SkipEmpty(old(blocks))
    {
      hide Bytes, Rooms;
      while blocks != [] && blocks[0].data == []
        invariant Valid() && Bytes(blocks) == Bytes(old(blocks)) && SkipEmpty(blocks) == SkipEmpty(old(blocks))
        decreases |blocks|
      {
        var b := qremove();
      }
    }

    /** Takes at most n bytes of the first block out; unless these are messages the rest goes back. */
    method takeFirst(n: nat) returns (bytes: seq<Byte>)
      requires Counts() && blocks != []
      modifies `blocks, `len, `dlen
      ensures Counts() && bytes == Upto(old(blocks[0].data), n) && (!msg ==> bytes + Bytes(blocks) == Bytes(old(blocks)))
      ensures blocks == AfterRead(old(blocks), 1, n, old(blocks[0].room), msg)
    {
      hide Bytes, Rooms;
      BytesHead(blocks);
      var b := qremove();
      bytes := Upto(b.data, n);
      if |bytes| < |b.data| && !msg {
        Cut(b.data, n, Bytes(blocks));
        qputback(Block(b.data[n..], b.room));
      }
    }

    /** Records what has come out. */
    ghost method deliver(bytes: seq<Byte>)
      requires Counts() && (!msg && !closed ==> removed + (bytes + Bytes(blocks)) == accepted)
      modifies `removed
      ensures Valid() && removed == old(removed) + bytes
    {
      hide Bytes, Rooms;
      Regroup(removed, bytes, Bytes(blocks));
      removed := removed + bytes;
    }

    /** Copies bytes of the first block that has any, from an interrupt; -1 when there is none. */
    method qconsume(n: nat) returns (r: ReadResult, dowakeup: bool)
      requires Valid()
      modifies this
      ensures Valid() && closed == old(closed) && accepted == old(accepted)
      ensures removed == if r.Data? then old(removed) + r.bytes else old(removed)
      ensures r.Data? <==> Bytes(old(blocks)) != []
      ensures r.Data? ==> SkipEmpty(old(blocks)) != [] && r.bytes == Upto(SkipEmpty(old(blocks))[0].data, n)
      ensures r.Data? ==> blocks == AfterRead(SkipEmpty(old(blocks)), 1, n, SkipEmpty(old(blocks))[0].room, msg)
      ensures r.Data? && !msg ==> r.bytes + Bytes(blocks) == Bytes(old(blocks))
      ensures !r.Data? ==> r.WouldWait? && blocks == []
      ensures dowakeup <==> r.Data? && old(flow) && len < limit / 2
      ensures (flow <==> old(flow) && !dowakeup) && starve == (old(starve) || !r.Data?) && eof == old(eof)
    {
      hide Bytes, Rooms, SkipEmpty;
      BytesNone();
      dowakeup := false;
      r := WouldWait;
      dropEmpty();
      if blocks == [] {
        starve := true;
        return;
      }
      HasBytes(blocks);
      var bytes := takeFirst(n);
      deliver(bytes);
      dowakeup := restart(limit / 2);
      r := Data(bytes);
    }

    /** Throws away the next n bytes, or all there are. */
    method qdiscard(n: nat) returns (sofar: nat, dowakeup: bool)
      requires Valid()
      modifies this
      ensures Valid() && closed == old(closed) && accepted == old(accepted)
      ensures sofar == if n < |Bytes(old(blocks))| then n else |Bytes(old(blocks))|
      ensures blocks == Dropped(old(blocks), n)
      ensures removed == old(removed) + Bytes(old(blocks))[..sofar] && Bytes(blocks) == Bytes(old(blocks))[sofar..]
      ensures (dowakeup <==> old(flow) && len < limit) && (flow <==> old(flow) && !dowakeup) && starve == old(starve) && eof == old(eof)
    {
      hide Bytes, Rooms, Dropped;
      BytesNone();
      sofar := 0;
      ghost var all := Bytes(blocks);
      while sofar < n && blocks != []
        invariant Counts() && closed == old(closed) && accepted == old(accepted) && removed == old(removed) && flow == old(flow)
        invariant starve == old(starve) && eof == old(eof)
        invariant sofar <= n && sofar <= |all| && Bytes(blocks) == all[sofar..]
        invariant Dropped(blocks, n - sofar) == Dropped(old(blocks), n)
        decreases n - sofar, |blocks|
      {
        DroppedHead(blocks, n - sofar);
        var b := qremove();
        var k := if |b.data| <= n - sofar then |b.data| else n - sofar;
        DropSome(all, sofar, b.data, Bytes(blocks), k);
        if k < |b.data| {
          qputback(Block(b.data[k..], b.room));
        }
        sofar := sofar + k;
      }
      DroppedHead(blocks, n - sofar);
      assert all[..sofar] + all[sofar..] == all;
      deliver(all[..sofar]);
      dowakeup := restart(limit);
    }

    /** Closes the queue; what it held is gone. */
    method qclose()
      requires Valid()
      modifies this
      ensures Valid() && closed && blocks == [] && len == 0 && dlen == 0 && !flow && !starve
      ensures eof == old(eof) && accepted == old(accepted) && removed == old(removed)
    {
      closed, flow, starve := true, false, false;
      blocks, len, dlen := [], 0, 0;
    }

    /** Reads of a closed and empty queue, one after another: three ends of file in all, and then errors. */
    method closedReads(k: nat, n: nat) returns (rs: seq<ReadResult>)
      requires Valid() && closed && blocks == []
      modifies this
      ensures Valid() && closed && blocks == [] && eof == old(eof) + k
      ensures |rs| == k && forall i :: 0 <= i < k ==> rs[i] == if old(eof) + i < 3 then Eof else Hungup
    {
      hide Bytes, Rooms;
      BytesNone();
      rs := [];
      for i := 0 to k
        invariant Valid() && closed && blocks == [] && eof == old(eof) + i && |rs| == i
        invariant forall j :: 0 <= j < i ==> rs[j] == if old(eof) + j < 3 then Eof else Hungup
      {
        var r, wake := qread(n);
        rs := rs + [r];
      }
    }
  }

  lemma NextPiece(before: seq<Byte>, vp: seq<Byte>, sofar: nat, n: nat)
    requires sofar + n <= |vp|
    ensures (before + vp[..sofar]) + vp[sofar..sofar + n] == before + vp[..sofar + n]
  {
  }

  lemma FirstPiece(vp: seq<Byte>, n: nat)
    requires n == if |vp| > MAXATOMIC then MAXATOMIC else |vp|
    ensures vp[0..0 + n] == vp[..0 + n] == Upto(vp, MAXATOMIC)
  {
  }

  lemma Cut(data: seq<Byte>, n: nat, rest: seq<Byte>)
    requires n <= |data|
    ensures Upto(data, n) + (data[n..] + rest) == data + rest
  {
    assert Upto(data, n) == data[..n] && data[..n] + data[n..] == data;
    assert data[..n] + (data[n..] + rest) == (data[..n] + data[n..]) + rest;
  }

  lemma DropSome(all: seq<Byte>, sofar: nat, data: seq<Byte>, rest: seq<Byte>, k: nat)
    requires sofar <= |all| && data + rest == all[sofar..] && k <= |data|
    ensures sofar + k <= |all| && data[k..] + rest == all[sofar + k..]
    ensures k == |data| ==> rest == all[sofar + k..]
  {
    assert all[sofar..][k..] == all[sofar + k..];
    assert (data + rest)[k..] == data[k..] + rest;
  }

  lemma Regroup(a: seq<Byte>, b: seq<Byte>, c: seq<Byte>)
    ensures (a + b) + c == a + (b + c)
  {
  }

  /** The first n items of s, or all of them. */
  function Upto(s: seq<Byte>, n: nat): seq<Byte>
  {
    if |s| > n then s[..n] else s
  }

  lemma FirstByte(was: seq<Block>, first: seq<Block>, rest: seq<Block>)
    requires first != [] && first + rest == was && was[0].data != []
    ensures Bytes(first) != []
  {
    assert first[0] == was[0];
  }

  /** Copies at most n bytes out of blocks; what is left begins with the block the copy stopped in. */
  method bl2mem(b: seq<Block>, n: nat) returns (p: seq<Byte>, rest: seq<Block>)
    ensures p + Bytes(rest) == Bytes(b) && |p| <= n && |rest| <= |b|
    ensures rest != [] ==> |p| == n && rest[0].data != []
    ensures |b| == 1 ==> p == Upto(b[0].data, n)
    ensures p == Upto(Bytes(b), n)
    ensures |b| == 1 ==> rest == if |b[0].data| > n then [Block(b[0].data[n..], b[0].room)] else []
    ensures |Bytes(b)| <= n ==> rest == []
  {
    hide Bytes, Rooms;
    BytesNone();
    p, rest := [], b;
    while rest != []
      invariant p + Bytes(rest) == Bytes(b) && |p| <= n && |rest| <= |b|
      invariant |b| == 1 && rest == [] ==> p == Upto(b[0].data, n) && |b[0].data| <= n
      invariant |b| == 1 && rest != [] ==> p == [] && rest == b
      decreases |rest|
    {
      BytesHead(rest);
      var data, more := rest[0].data, rest[1..];
      var room := n - |p|;
      if |data| > room {
        var left := Block(data[room..], rest[0].room);
        Reassociate(p, data[..room], left.data, Bytes(more));
        assert data == data[..room] + left.data;
        BytesAdd(more, left);
        return p + data[..room], [left] + more;
      }
      Reassociate(p, data, [], Bytes(more));
      p := p + data;
      rest := more;
    }
  }

  lemma Reassociate(a: seq<Byte>, b: seq<Byte>, c: seq<Byte>, d: seq<Byte>)
    ensures (a + b) + (c + d) == a + ((b + c) + d)
    ensures c == [] ==> (a + b) + d == a + (b + d)
    ensures b == [] ==> (a + c) + d == a + (c + d)
  {
  }

  /** Only the first block taken can be too long for a read, and then it is the only one. */
  lemma OneLeft(first: seq<Block>, rest: seq<Block>, p: seq<Byte>, n: nat, total: nat)
    requires p + Bytes(rest) == Bytes(first) && |p| == n && rest != [] && rest[0].data != [] && |rest| <= |first|
    requires total == |Bytes(first)| && first != [] && (|first| > 1 ==> total <= n)
    ensures |rest| == 1 && Bytes(rest) == rest[0].data
  {
    assert |Bytes(rest)| > 0;
    BytesOne(rest[0]);
    assert |first| == 1;
    assert rest == [rest[0]];
  }

  /**
   * Makes the first block hold at least n bytes, just n if it held fewer; nothing is left if there are not so many.
   * A new block goes first when the bytes do not fit the one that is there.
   */
  method pullupblock(b: seq<Block>, n: nat, fits: bool, room: nat) returns (r: Option<seq<Block>>)
    requires b != []
    ensures r.Some? <==> n <= |Bytes(b)|
    ensures r.Some? ==> r.value != [] && Bytes(r.value) == Bytes(b)
    ensures r.Some? ==> if |b[0].data| >= n then r.value == b else |r.value[0].data| == n
  {
    hide Bytes;
    BytesHead(b);
    if |b[0].data| >= n {
      return Some(b);
    }
    var bp, rest := b[0], b[1..];
    if !fits {
      bp, rest := Block([], room), b;
    }
    var need := n - |bp.data|;
    while rest != []
      invariant bp.data + Bytes(rest) == Bytes(b) && |bp.data| + need == n && need > 0
      decreases |rest|
    {
      BytesHead(rest);
      var nbp, next := rest[0], rest[1..];
      var i := |nbp.data|;
      if i > need {
        PulledPart(bp, nbp, next, need);
        return Some([bp.(data := bp.data + nbp.data[..need]), nbp.(data := nbp.data[need..])] + next);
      }
      Pulled(bp, nbp, next);
      bp := bp.(data := bp.data + nbp.data);
      rest := next;
      need := need - i;
      if need == 0 {
        return Some([bp] + rest);
      }
    }
    BytesNone();
    r := None;
  }

  lemma Pulled(bp: Block, nbp: Block, next: seq<Block>)
    ensures bp.data + (nbp.data + Bytes(next)) == bp.data + nbp.data + Bytes(next)
    ensures Bytes([bp.(data := bp.data + nbp.data)] + next) == bp.data + nbp.data + Bytes(next)
  {
    BytesAdd(next, bp.(data := bp.data + nbp.data));
  }

  lemma PulledPart(bp: Block, nbp: Block, next: seq<Block>, n: nat)
    requires n <= |nbp.data|
    ensures Bytes([bp.(data := bp.data + nbp.data[..n]), nbp.(data := nbp.data[n..])] + next) == bp.data + (nbp.data + Bytes(next))
  {
    var x, y := bp.(data := bp.data + nbp.data[..n]), nbp.(data := nbp.data[n..]);
    BytesAdd(next, y);
    BytesAdd([y] + next, x);
    assert [x, y] + next == [x] + ([y] + next);
    hide Bytes, Rooms;
    PartsBack(bp.data, nbp.data, Bytes(next), n);
  }

  lemma PartsBack(a: seq<Byte>, b: seq<Byte>, c: seq<Byte>, n: nat)
    requires n <= |b|
    ensures (a + b[..n]) + (b[n..] + c) == a + (b + c)
  {
    assert b == b[..n] + b[n..];
  }
}
