/**
 * Flow control and sleeping on one queue (qio.c, with Sleep, Wakeup and swiproc from proc.c) as a
 * step system: any number of processes that read, write and close, interrupted at any time.
 * Spin locks and sleep locks are taken in one step and given up in another.
 */
module QueueWait {
  import opened Options
  /** A block: the data bytes in it and the room it takes. */
  datatype Block = Block(data: nat, room: nat)

  /** Where a process is.  Want: about to take a lock; In: it has q.l or a rendezvous lock. */
  datatype Pc =
    | Idle
    // qread and qbread
    | RWantR | RWantL | RIn | RSleep | RSleepIn | RSleepPark | RParked | RSlept
    | RCopy(last: Block) | RBack(left: Option<Block>) | RBackIn(left: Option<Block>) | RWakeW | RLeave
    // qbwrite
    | WWantW | WWantL | WIn | WWakeR | WCheck | WFlowL | WFlowIn
    | WSleep | WSleepIn | WSleepPark | WParked | WSlept | WLeave
    // qclose
    | CWantL | CIn | CWakeR | CWakeW

  /** The limit, whether reads coalesce, and whether empty blocks are written. */
  datatype Config = Config(limit: nat, coalesce: bool, empties: bool)

  /**
   * The queue; l its spin lock, rown and wown the owners of rlock and wlock; rp and wp the processes
   * asleep on rr and wr, and rl and wl the owners of their locks.  wake holds wakeups not yet taken
   * from osblock, intr the processes that were interrupted.
   */
  datatype Queue = Queue(cfg: Config, blocks: seq<Block>, len: int, starve: bool, flow: bool, closed: bool,
                         l: Option<nat>, rown: Option<nat>, wown: Option<nat>,
                         rp: Option<nat>, rl: Option<nat>, wp: Option<nat>, wl: Option<nat>,
                         wake: set<nat>, intr: set<nat>, panic: bool)

  datatype State = State(q: Queue, pc: seq<Pc>)

  /** What a step may depend on besides the state. */
  datatype Choice = Choice(op: nat, n: nat, block: Block, left: Option<Block>)

  /** A step that has to wait, or what it makes of the queue and where it leaves the process. */
  datatype Moved = Waits | To(q: Queue, pc: Pc)

  function Room(blocks: seq<Block>): nat
  {
    if blocks == [] then 0 else Room(blocks[..|blocks|-1]) + blocks[|blocks|-1].room
  }

  /** notempty and qnotfull, looked at without the lock. */
  predicate NotEmpty(q: Queue)
  {
    q.closed || q.blocks != []
  }

  predicate NotFull(q: Queue)
  {
    q.len < q.cfg.limit || q.closed
  }

  /** Wakeup: the sleeping process, if any, is let go. */
  function WakeR(q: Queue): Queue
  {
    if q.rp.Some? then q.(rp := None, wake := q.wake + {q.rp.value}) else q
  }

  function WakeW(q: Queue): Queue
  {
    if q.wp.Some? then q.(wp := None, wake := q.wake + {q.wp.value}) else q
  }

  /** What a reader may leave of a block: some of its data, in no more room than it had. */
  predicate LeftOf(left: Option<Block>, b: Block)
  {
    left.Some? ==> 0 < left.value.data <= b.data && 0 < left.value.room <= b.room
  }

  /** Taking a spin lock or a sleep lock, which waits while another process has it. */
  function TakeL(q: Queue, p: nat, next: Pc): Moved
  {
    if q.l.None? then To(q.(l := Some(p)), next) else Waits
  }

  /** qwait with the lock held, and what qbread (op 0) and qread (op 1) take. */
  function ReadIn(q: Queue, p: nat, c: Choice): Moved
  {
    if q.blocks == [] then
      if q.closed then To(q.(l := None), RLeave) else To(q.(l := None, starve := true), RSleep)
    else
      var b := q.blocks[0];
      if c.op == 0 then
        if LeftOf(c.left, b) then To(q.(blocks := q.blocks[1..], len := q.len - b.room), RBackIn(c.left)) else Waits
      else if q.cfg.coalesce && b.data == 0 then
        To(q.(blocks := q.blocks[1..], len := q.len - b.room), RIn)
      else if 1 <= c.n <= |q.blocks| && (c.n == 1 || q.cfg.coalesce) then
        To(q.(blocks := q.blocks[c.n..], len := q.len - Room(q.blocks[..c.n]), l := None), RCopy(q.blocks[c.n-1]))
      else Waits
  }

  /** The end of a read: what is left goes back, and a writer held up is woken if there is room. */
  function ReadBack(q: Queue, left: Option<Block>): Moved
  {
    var t := if left.Some? then q.(blocks := [left.value] + q.blocks, len := q.len + left.value.room) else q;
    if t.flow && t.len < t.cfg.limit / 2 then To(t.(flow := false, l := None), RWakeW) else To(t.(l := None), RLeave)
  }

  function Read(q: Queue, p: nat, pc: Pc, c: Choice): Moved
  {
    match pc
    case RWantR => if q.rown.None? then To(q.(rown := Some(p)), RWantL) else Waits
    case RWantL => TakeL(q, p, RIn)
    case RIn => ReadIn(q, p, c)
    case RCopy(b) => if LeftOf(c.left, b) then To(q, RBack(c.left)) else Waits
    case RBack(left) => TakeL(q, p, RBackIn(left))
    case RBackIn(left) => ReadBack(q, left)
    case RWakeW => if q.wl.None? then To(WakeW(q), RLeave) else Waits
    case RLeave => To(q.(rown := None), Idle)
    case _ => Waits
  }

  /** Sleep on rr until the queue is not empty. */
  function ReadSleep(q: Queue, p: nat, pc: Pc): Moved
  {
    match pc
    case RSleep => if q.rl.None? then To(q.(rl := Some(p)), RSleepIn) else Waits
    case RSleepIn => if p in q.intr || NotEmpty(q) then To(q.(rl := None), RSlept) else To(q, RSleepPark)
    case RSleepPark => To(q.(panic := q.panic || q.rp.Some?, rp := Some(p), rl := None), RParked)
    case RParked => if p in q.wake then To(q.(wake := q.wake - {p}), RSlept) else Waits
    case RSlept => if p in q.intr then To(q.(intr := q.intr - {p}), RLeave) else To(q, RWantL)
    case _ => Waits
  }

  function Write(q: Queue, p: nat, pc: Pc, c: Choice): Moved
  {
    match pc
    case WWantW => if q.wown.None? then To(q.(wown := Some(p)), WWantL) else Waits
    case WWantL => TakeL(q, p, WIn)
    case WIn =>
      if q.closed then To(q.(l := None), WLeave)
      else if c.block.room > 0 && (q.cfg.empties || c.block.data > 0) then
        To(q.(blocks := q.blocks + [c.block], len := q.len + c.block.room, starve := false, l := None),
           if q.starve then WWakeR else WCheck)
      else Waits
    case WWakeR => if q.rl.None? then To(WakeR(q), WCheck) else Waits
    case WCheck => To(q, if NotFull(q) then WLeave else WFlowL)
    case WFlowL => TakeL(q, p, WFlowIn)
    case WFlowIn => To(q.(flow := true, l := None), WSleep)
    case WLeave => To(q.(wown := None), Idle)
    case _ => Waits
  }

  /** Sleep on wr until the queue is not full. */
  function WriteSleep(q: Queue, p: nat, pc: Pc): Moved
  {
    match pc
    case WSleep => if q.wl.None? then To(q.(wl := Some(p)), WSleepIn) else Waits
    case WSleepIn => if p in q.intr || NotFull(q) then To(q.(wl := None), WSlept) else To(q, WSleepPark)
    case WSleepPark => To(q.(panic := q.panic || q.wp.Some?, wp := Some(p), wl := None), WParked)
    case WParked => if p in q.wake then To(q.(wake := q.wake - {p}), WSlept) else Waits
    case WSlept => if p in q.intr then To(q.(intr := q.intr - {p}), WLeave) else To(q, WCheck)
    case _ => Waits
  }

  function Close(q: Queue, p: nat, pc: Pc): Moved
  {
    match pc
    case CWantL => TakeL(q, p, CIn)
    case CIn => To(q.(closed := true, flow := false, starve := false, blocks := [], len := 0, l := None), CWakeR)
    case CWakeR => if q.rl.None? then To(WakeR(q), CWakeW) else Waits
    case CWakeW => if q.wl.None? then To(WakeW(q), Idle) else Waits
    case _ => Waits
  }

  /** An idle process begins a call. */
  function Start(q: Queue, pc: Pc, c: Choice): Moved
  {
    if pc.Idle? then To(q, if c.op == 0 then RWantR else if c.op == 1 then WWantW else CWantL) else Waits
  }

  /**
   * swiproc: p is interrupted, and taken off its rendezvous if it sleeps there.  p's own lock keeps
   * this out while p is on its way into osblock, and the rendezvous lock while another has that.
   */
  function Interrupt(q: Queue, p: nat, pc: Pc): Moved
  {
    var t := q.(intr := q.intr + {p});
    match pc
    case RSleepIn => Waits
    case RSleepPark => Waits
    case WSleepIn => Waits
    case WSleepPark => Waits
    case RParked => if q.rl.Some? then Waits else if q.rp == Some(p) then To(WakeR(t), pc) else To(t, pc)
    case WParked => if q.wl.Some? then Waits else if q.wp == Some(p) then To(WakeW(t), pc) else To(t, pc)
    case _ => To(t, pc)
  }

  /** The step of a process at pc. */
  function Step(q: Queue, p: nat, pc: Pc, c: Choice): Moved
  {
    if Start(q, pc, c).To? then Start(q, pc, c)
    else if Read(q, p, pc, c).To? then Read(q, p, pc, c)
    else if ReadSleep(q, p, pc).To? then ReadSleep(q, p, pc)
    else if Write(q, p, pc, c).To? then Write(q, p, pc, c)
    else if WriteSleep(q, p, pc).To? then WriteSleep(q, p, pc)
    else Close(q, p, pc)
  }

  /** One step of process p, or its interruption, takes s to t. */
  ghost predicate Next(s: State, t: State, p: nat)
  {
    p < |s.pc| &&
    exists m: Moved :: m.To? && t == State(m.q, s.pc[p := m.pc]) &&
      ((exists c :: m == Step(s.q, p, s.pc[p], c)) || m == Interrupt(s.q, p, s.pc[p]))
  }

  predicate Init(s: State)
  {
    && s.q == Queue(s.q.cfg, [], 0, true, false, false, None, None, None, None, None, None, None, {}, {}, false)
    && forall p :: 0 <= p < |s.pc| ==> s.pc[p].Idle?
  }

  // What a process has.

  /** It has q.l. */
  predicate InL(pc: Pc)
  {
    pc.RIn? || pc.RBackIn? || pc.WIn? || pc.WFlowIn? || pc.CIn?
  }

  /** It has rlock. */
  predicate Reading(pc: Pc)
  {
    || pc.RWantL? || pc.RIn? || pc.RSleep? || pc.RSleepIn? || pc.RSleepPark? || pc.RParked?
    || pc.RSlept? || pc.RCopy? || pc.RBack? || pc.RBackIn? || pc.RWakeW? || pc.RLeave?
  }

  /** It has wlock. */
  predicate Writing(pc: Pc)
  {
    || pc.WWantL? || pc.WIn? || pc.WWakeR? || pc.WCheck? || pc.WFlowL? || pc.WFlowIn?
    || pc.WSleep? || pc.WSleepIn? || pc.WSleepPark? || pc.WParked? || pc.WSlept? || pc.WLeave?
  }

  /** It has the lock of rr, or of wr. */
  predicate InRl(pc: Pc)
  {
    pc.RSleepIn? || pc.RSleepPark?
  }

  predicate InWl(pc: Pc)
  {
    pc.WSleepIn? || pc.WSleepPark?
  }

  /** It is about to call Wakeup on rr, or on wr. */
  predicate WakesR(pc: Pc)
  {
    pc.WWakeR? || pc.CWakeR?
  }

  predicate WakesW(pc: Pc)
  {
    pc.RWakeW? || pc.CWakeR? || pc.CWakeW?
  }

  /** A Wakeup of rr, or of wr, is on its way. */
  ghost predicate PendingR(s: State)
  {
    exists p :: 0 <= p < |s.pc| && WakesR(s.pc[p])
  }

  ghost predicate PendingW(s: State)
  {
    exists p :: 0 <= p < |s.pc| && WakesW(s.pc[p])
  }

  // The invariant.

  ghost predicate Locks(s: State)
  {
    && (forall p :: 0 <= p < |s.pc| ==> Local(s.q, p, s.pc[p]))
    && (s.q.l.Some? ==> s.q.l.value < |s.pc|) && (s.q.rown.Some? ==> s.q.rown.value < |s.pc|)
    && (s.q.wown.Some? ==> s.q.wown.value < |s.pc|)
    && (s.q.rl.Some? ==> s.q.rl.value < |s.pc|) && (s.q.wl.Some? ==> s.q.wl.value < |s.pc|)
  }

  /** The locks belong to the processes that are where they should have them. */
  predicate Local(q: Queue, p: nat, pc: Pc)
  {
    && (InL(pc) <==> q.l == Some(p)) && (Reading(pc) <==> q.rown == Some(p)) && (Writing(pc) <==> q.wown == Some(p))
    && (InRl(pc) <==> q.rl == Some(p)) && (InWl(pc) <==> q.wl == Some(p))
  }

  /** A parked process is on its rendezvous, or has its wakeup; and never both. */
  predicate Parks(q: Queue, p: nat, pc: Pc)
  {
    && (pc.RParked? && p !in q.wake <==> q.rp == Some(p)) && (pc.WParked? && p !in q.wake <==> q.wp == Some(p))
    && (p in q.wake ==> pc.RParked? || pc.WParked?)
  }

  /** No second sleeper has come, and the rendezvous and the wakeups are those of the n processes. */
  ghost predicate Ranged(q: Queue, n: nat)
  {
    && !q.panic && (q.rp.Some? ==> q.rp.value < n) && (q.wp.Some? ==> q.wp.value < n)
    && (forall r :: r in q.wake ==> r < n)
  }

  ghost predicate Parking(s: State)
  {
    Ranged(s.q, |s.pc|) && forall p :: 0 <= p < |s.pc| ==> Parks(s.q, p, s.pc[p])
  }

  /** Where the process that has rlock is, and where the one that has wlock is. */
  function ReaderAt(s: State): Pc
  {
    if s.q.rown.Some? && s.q.rown.value < |s.pc| then s.pc[s.q.rown.value] else Idle
  }

  function WriterAt(s: State): Pc
  {
    if s.q.wown.Some? && s.q.wown.value < |s.pc| then s.pc[s.q.wown.value] else Idle
  }

  /** What a reader still has to put back. */
  function Held(pc: Pc): int
  {
    if pc.RCopy? then pc.last.room
    else if pc.RBack? && pc.left.Some? then pc.left.value.room
    else if pc.RBackIn? && pc.left.Some? then pc.left.value.room
    else 0
  }

  /** A reader has yet to look whether a writer is to be woken. */
  predicate Checking(pc: Pc)
  {
    pc.RCopy? || pc.RBack? || pc.RBackIn?
  }

  predicate FullBlock(c: Config, b: Block)
  {
    b.room > 0 && (c.empties || b.data > 0)
  }

  predicate FullLeft(c: Config, pc: Pc)
  {
    && (pc.RCopy? ==> FullBlock(c, pc.last))
    && (pc.RBack? && pc.left.Some? ==> FullBlock(c, pc.left.value))
    && (pc.RBackIn? && pc.left.Some? ==> FullBlock(c, pc.left.value))
  }

  predicate AllFull(c: Config, blocks: seq<Block>)
  {
    forall k :: 0 <= k < |blocks| ==> FullBlock(c, blocks[k])
  }

  predicate Contents(q: Queue, reader: Pc)
  {
    && q.len == Room(q.blocks) && AllFull(q.cfg, q.blocks)
    && FullLeft(q.cfg, reader)
  }

  /** A reader on its way to sleep has asked for a wakeup, or will see that it need not. */
  predicate ReaderSafe(q: Queue, reader: Pc, pending: bool)
  {
    && (reader.RSleep? || reader.RSleepIn? ==> q.blocks == [] && !q.closed ==> q.starve)
    && (reader.RSleepPark? || q.rp.Some? ==> (q.blocks == [] && !q.closed && q.starve) || pending)
  }

  predicate WriterSafe(q: Queue, reader: Pc, writer: Pc, pending: bool)
  {
    && (writer.WSleep? || writer.WSleepIn? ==> q.flow || q.closed || q.len + Held(reader) < q.cfg.limit / 2)
    && (writer.WSleepPark? || q.wp.Some? ==>
        (!q.closed && q.flow && (q.len >= q.cfg.limit / 2 || Checking(reader))) || pending)
  }

  ghost predicate Inv(s: State)
  {
    Locks(s) && Parking(s) && Contents(s.q, ReaderAt(s)) && ReaderSafe(s.q, ReaderAt(s), PendingR(s))
  }

  /** The part that does not hold of every queue. */
  ghost predicate WriterInv(s: State)
  {
    WriterSafe(s.q, ReaderAt(s), WriterAt(s), PendingW(s))
  }

  lemma InitInv(s: State)
    requires Init(s)
    ensures Inv(s) && WriterInv(s)
  {
  }

  // What a step does to the locks and the sleepers.

  predicate LockMove(before: Option<nat>, after: Option<nat>, was: bool, now: bool, p: nat)
  {
    && (now && !was ==> before.None?)
    && after == (if now then Some(p) else if was then None else before)
  }

  predicate SameParking(q: Queue, t: Queue)
  {
    t.rp == q.rp && t.wp == q.wp && t.wake == q.wake && t.panic == q.panic
  }

  /** Who sleeps and who is let go, after a step from c to d. */
  predicate ParkMove(q: Queue, t: Queue, p: nat, c: Pc, d: Pc)
  {
    && (d.RParked? <==> c.RSleepPark?) && (d.WParked? <==> c.WSleepPark?)
    && if c.RSleepPark? then SameParking(q.(rp := Some(p), panic := q.panic || q.rp.Some?), t)
       else if c.WSleepPark? then SameParking(q.(wp := Some(p), panic := q.panic || q.wp.Some?), t)
       else if c.RParked? || c.WParked? then p in q.wake && SameParking(q.(wake := q.wake - {p}), t)
       else if WakesR(c) then SameParking(WakeR(q), t)
       else if WakesW(c) then SameParking(WakeW(q), t)
       else SameParking(q, t)
  }

  predicate LockMoves(q: Queue, t: Queue, p: nat, c: Pc, d: Pc)
  {
    && LockMove(q.l, t.l, InL(c), InL(d), p)
    && LockMove(q.rown, t.rown, Reading(c), Reading(d), p)
    && LockMove(q.wown, t.wown, Writing(c), Writing(d), p)
    && LockMove(q.rl, t.rl, InRl(c), InRl(d), p)
    && LockMove(q.wl, t.wl, InWl(c), InWl(d), p)
    && t.cfg == q.cfg
  }

  lemma StepLocks(q: Queue, p: nat, pc: Pc, c: Choice)
    requires Local(q, p, pc) && Step(q, p, pc, c).To?
    ensures var m := Step(q, p, pc, c); LockMoves(q, m.q, p, pc, m.pc)
  {
    hide Start, Read, ReadSleep, Write, WriteSleep, Close, LockMoves, Local;
    StartLocks(q, p, pc, c);
    ReadLocks(q, p, pc, c);
    ReadSleepLocks(q, p, pc);
    WriteLocks(q, p, pc, c);
    WriteSleepLocks(q, p, pc);
    CloseLocks(q, p, pc);
  }

  lemma StepParks(q: Queue, p: nat, pc: Pc, c: Choice)
    requires Step(q, p, pc, c).To?
    ensures var m := Step(q, p, pc, c); ParkMove(q, m.q, p, pc, m.pc)
  {
    hide Start, Read, ReadSleep, Write, WriteSleep, Close, ParkMove;
    StartParks(q, p, pc, c);
    ReadParks(q, p, pc, c);
    ReadSleepParks(q, p, pc);
    WriteParks(q, p, pc, c);
    WriteSleepParks(q, p, pc);
    CloseParks(q, p, pc);
  }

  lemma StartLocks(q: Queue, p: nat, pc: Pc, c: Choice)
    requires Local(q, p, pc)
    ensures var m := Start(q, pc, c); m.To? ==> LockMoves(q, m.q, p, pc, m.pc)
  {
  }

  lemma StartParks(q: Queue, p: nat, pc: Pc, c: Choice)
    ensures var m := Start(q, pc, c); m.To? ==> ParkMove(q, m.q, p, pc, m.pc)
  {
  }

  lemma ReadInLocks(q: Queue, p: nat, c: Choice)
    requires Local(q, p, RIn)
    ensures var m := ReadIn(q, p, c); m.To? ==> LockMoves(q, m.q, p, RIn, m.pc)
  {
    hide Local, LockMoves;
    var m := ReadIn(q, p, c);
    if m.To? {
      ReadInEnds(q, p, c);
      ReadInMoves(q, m.q, p, m.pc);
    }
  }

  lemma ReadInEnds(q: Queue, p: nat, c: Choice)
    ensures var m := ReadIn(q, p, c); m.To? ==>
      && m.q == q.(blocks := m.q.blocks, len := m.q.len, starve := m.q.starve, l := m.q.l)
      && m.q.l == (if m.pc.RIn? || m.pc.RBackIn? then q.l else None)
      && (m.pc.RLeave? || m.pc.RSleep? || m.pc.RBackIn? || m.pc.RIn? || m.pc.RCopy?)
  {
    hide Room, LeftOf;
  }

  lemma ReadInMoves(q: Queue, t: Queue, p: nat, d: Pc)
    requires Local(q, p, RIn) && t == q.(blocks := t.blocks, len := t.len, starve := t.starve, l := t.l)
    requires t.l == if d.RIn? || d.RBackIn? then q.l else None
    requires d.RLeave? || d.RSleep? || d.RBackIn? || d.RIn? || d.RCopy?
    ensures LockMoves(q, t, p, RIn, d)
  {
  }

  lemma ReadBackLocks(q: Queue, p: nat, left: Option<Block>)
    requires Local(q, p, RBackIn(left))
    ensures var m := ReadBack(q, left); m.To? ==> LockMoves(q, m.q, p, RBackIn(left), m.pc)
  {
  }

  lemma ReadLocks(q: Queue, p: nat, pc: Pc, c: Choice)
    requires Local(q, p, pc)
    ensures var m := Read(q, p, pc, c); m.To? ==> LockMoves(q, m.q, p, pc, m.pc)
  {
    hide ReadIn, ReadBack;
    if pc.RIn? {
      ReadInLocks(q, p, c);
    } else if pc.RBackIn? {
      ReadBackLocks(q, p, pc.left);
    } else {
      ReadEndLocks(q, p, pc, c);
    }
  }

  lemma ReadEndLocks(q: Queue, p: nat, pc: Pc, c: Choice)
    requires Local(q, p, pc) && !pc.RIn? && !pc.RBackIn?
    ensures var m := Read(q, p, pc, c); m.To? ==> LockMoves(q, m.q, p, pc, m.pc)
  {
    hide ReadIn, ReadBack;
  }

  lemma ReadParks(q: Queue, p: nat, pc: Pc, c: Choice)
    ensures var m := Read(q, p, pc, c); m.To? ==> ParkMove(q, m.q, p, pc, m.pc)
  {
    if pc.RIn? {
      hide ParkMove;
      ReadInParks(q, p, c);
    } else {
      hide ReadIn;
    }
  }

  lemma ReadInParks(q: Queue, p: nat, c: Choice)
    ensures var m := ReadIn(q, p, c); m.To? ==> ParkMove(q, m.q, p, RIn, m.pc)
  {
  }

  lemma ReadSleepLocks(q: Queue, p: nat, pc: Pc)
    requires Local(q, p, pc)
    ensures var m := ReadSleep(q, p, pc); m.To? ==> LockMoves(q, m.q, p, pc, m.pc)
  {
  }

  lemma ReadSleepParks(q: Queue, p: nat, pc: Pc)
    ensures var m := ReadSleep(q, p, pc); m.To? ==> ParkMove(q, m.q, p, pc, m.pc)
  {
  }

  lemma WriteLocks(q: Queue, p: nat, pc: Pc, c: Choice)
    requires Local(q, p, pc)
    ensures var m := Write(q, p, pc, c); m.To? ==> LockMoves(q, m.q, p, pc, m.pc)
  {
    if pc.WIn? {
      WriteInLocks(q, p, c);
    } else if pc.WWantL? || pc.WFlowL? || pc.WFlowIn? {
      WriteFlowLocks(q, p, pc, c);
    } else {
      WriteFreeLocks(q, p, pc, c);
    }
  }

  lemma WriteInLocks(q: Queue, p: nat, c: Choice)
    requires Local(q, p, WIn)
    ensures var m := Write(q, p, WIn, c); m.To? ==> LockMoves(q, m.q, p, WIn, m.pc)
  {
  }

  lemma WriteFlowLocks(q: Queue, p: nat, pc: Pc, c: Choice)
    requires Local(q, p, pc) && (pc.WWantL? || pc.WFlowL? || pc.WFlowIn?)
    ensures var m := Write(q, p, pc, c); m.To? ==> LockMoves(q, m.q, p, pc, m.pc)
  {
  }

  /** The steps of a write that leave the queue's spin lock alone. */
  lemma WriteFreeLocks(q: Queue, p: nat, pc: Pc, c: Choice)
    requires Local(q, p, pc) && !pc.WIn? && !pc.WWantL? && !pc.WFlowL? && !pc.WFlowIn?
    ensures var m := Write(q, p, pc, c); m.To? ==> LockMoves(q, m.q, p, pc, m.pc)
  {
  }

  lemma WriteParks(q: Queue, p: nat, pc: Pc, c: Choice)
    ensures var m := Write(q, p, pc, c); m.To? ==> ParkMove(q, m.q, p, pc, m.pc)
  {
  }

  lemma WriteSleepLocks(q: Queue, p: nat, pc: Pc)
    requires Local(q, p, pc)
    ensures var m := WriteSleep(q, p, pc); m.To? ==> LockMoves(q, m.q, p, pc, m.pc)
  {
  }

  lemma WriteSleepParks(q: Queue, p: nat, pc: Pc)
    ensures var m := WriteSleep(q, p, pc); m.To? ==> ParkMove(q, m.q, p, pc, m.pc)
  {
  }

  lemma CloseLocks(q: Queue, p: nat, pc: Pc)
    requires Local(q, p, pc)
    ensures var m := Close(q, p, pc); m.To? ==> LockMoves(q, m.q, p, pc, m.pc)
  {
    hide LockMoves, Local, Close;
    if pc.CWantL? || pc.CIn? { CloseInLocks(q, p, pc); } else { CloseWakeLocks(q, p, pc); }
  }

  lemma CloseInLocks(q: Queue, p: nat, pc: Pc)
    requires Local(q, p, pc) && (pc.CWantL? || pc.CIn?)
    ensures var m := Close(q, p, pc); m.To? ==> LockMoves(q, m.q, p, pc, m.pc)
  {
  }

  lemma CloseWakeLocks(q: Queue, p: nat, pc: Pc)
    requires Local(q, p, pc) && !pc.CWantL? && !pc.CIn?
    ensures var m := Close(q, p, pc); m.To? ==> LockMoves(q, m.q, p, pc, m.pc)
  {
  }

  lemma CloseParks(q: Queue, p: nat, pc: Pc)
    ensures var m := Close(q, p, pc); m.To? ==> ParkMove(q, m.q, p, pc, m.pc)
  {
  }

  /** An interruption changes no lock, and lets p go if it sleeps. */
  lemma InterruptMoves(q: Queue, p: nat, pc: Pc)
    requires Interrupt(q, p, pc).To?
    ensures var m := Interrupt(q, p, pc);
      && m.pc == pc && m.q == q.(intr := m.q.intr, rp := m.q.rp, wp := m.q.wp, wake := m.q.wake)
      && if pc.RParked? && q.rp == Some(p) then SameParking(WakeR(q), m.q)
         else if pc.WParked? && q.wp == Some(p) then SameParking(WakeW(q), m.q)
         else SameParking(q, m.q)
  {
  }

  lemma MoveLocks(s: State, t: State, p: nat)
    requires Locks(s) && p < |s.pc| && |t.pc| == |s.pc| && t.pc == s.pc[p := t.pc[p]]
    requires LockMoves(s.q, t.q, p, s.pc[p], t.pc[p])
    ensures Locks(t)
  {
    hide InL, Reading, Writing, InRl, InWl;
    forall r | 0 <= r < |t.pc| ensures Local(t.q, r, t.pc[r]) {
      assert Local(s.q, r, s.pc[r]);
      assert Local(s.q, p, s.pc[p]);
      assert r != p ==> t.pc[r] == s.pc[r];
    }
  }

  /** A sleeper has the lock of its side. */
  lemma Sleepers(s: State, r: nat)
    requires Locks(s) && Parking(s) && r < |s.pc|
    ensures s.q.rp == Some(r) ==> s.pc[r].RParked? && s.q.rown == Some(r) && ReaderAt(s).RParked?
    ensures s.q.wp == Some(r) ==> s.pc[r].WParked? && s.q.wown == Some(r) && WriterAt(s).WParked?
    ensures Parks(s.q, r, s.pc[r]) && Local(s.q, r, s.pc[r])
  {
  }

  /** The second sleeper that Sleep panics over never comes. */
  lemma NoDoubleSleep(s: State, p: nat)
    requires Locks(s) && Parking(s) && p < |s.pc|
    ensures s.pc[p].RSleepPark? ==> s.q.rp.None?
    ensures s.pc[p].WSleepPark? ==> s.q.wp.None?
  {
    Sleepers(s, p);
    if s.q.rp.Some? { Sleepers(s, s.q.rp.value); }
    if s.q.wp.Some? { Sleepers(s, s.q.wp.value); }
  }

  /** The step of p leaves another process r parked as it was, or wakes it. */
  lemma ParksOther(q: Queue, t: Queue, p: nat, c: Pc, d: Pc, r: nat, pc: Pc)
    requires ParkMove(q, t, p, c, d) && Parks(q, r, pc) && r != p
    requires (c.RSleepPark? ==> q.rp.None?) && (c.WSleepPark? ==> q.wp.None?)
    ensures Parks(t, r, pc)
  {
    hide WakesR, WakesW;
  }

  lemma ParksSelf(q: Queue, t: Queue, p: nat, c: Pc, d: Pc)
    requires ParkMove(q, t, p, c, d) && Parks(q, p, c)
    requires (c.RSleepPark? ==> q.rp.None?) && (c.WSleepPark? ==> q.wp.None?)
    ensures Parks(t, p, d)
  {
    hide WakesR, WakesW;
  }

  lemma MoveParking(s: State, t: State, p: nat)
    requires Locks(s) && Parking(s) && p < |s.pc| && |t.pc| == |s.pc| && t.pc == s.pc[p := t.pc[p]]
    requires ParkMove(s.q, t.q, p, s.pc[p], t.pc[p])
    ensures Parking(t)
  {
    hide Locks, Local, Parks, Reading, Writing, WakesR, WakesW, ParkMove;
    NoDoubleSleep(s, p);
    RangedStays(s.q, t.q, p, s.pc[p], t.pc[p], |s.pc|);
    forall r | 0 <= r < |t.pc| ensures Parks(t.q, r, t.pc[r]) {
      assert Parks(s.q, r, s.pc[r]);
      if r == p {
        ParksSelf(s.q, t.q, p, s.pc[p], t.pc[p]);
      } else {
        ParksOther(s.q, t.q, p, s.pc[p], t.pc[p], r, s.pc[r]);
      }
    }
  }

  lemma RangedStays(q: Queue, t: Queue, p: nat, c: Pc, d: Pc, n: nat)
    requires Ranged(q, n) && p < n && ParkMove(q, t, p, c, d)
    requires (c.RSleepPark? ==> q.rp.None?) && (c.WSleepPark? ==> q.wp.None?)
    ensures Ranged(t, n)
  {
    hide WakesR, WakesW;
  }

  // The blocks.

  lemma {:induction false} RoomSplit(blocks: seq<Block>, n: nat)
    requires n <= |blocks|
    ensures Room(blocks) == Room(blocks[..n]) + Room(blocks[n..])
    decreases |blocks|
  {
    if n < |blocks| {
      var l := |blocks| - 1;
      RoomSplit(blocks[..l], n);
      assert blocks[..l][..n] == blocks[..n] && blocks[..l][n..] == blocks[n..][..l-n];
    } else {
      assert blocks[..n] == blocks;
    }
  }

  lemma RoomOne(b: Block)
    ensures Room([b]) == b.room
  {
    assert [b][..0] == [];
  }

  lemma RoomBack(blocks: seq<Block>, b: Block)
    ensures Room([b] + blocks) == b.room + Room(blocks) && Room(blocks + [b]) == Room(blocks) + b.room
  {
    RoomSplit([b] + blocks, 1);
    RoomOne(b);
    assert ([b] + blocks)[..1] == [b] && ([b] + blocks)[1..] == blocks;
    assert (blocks + [b])[..|blocks|] == blocks;
  }

  /** What taking the first n blocks does to the count. */
  lemma RoomTaken(blocks: seq<Block>, n: nat)
    requires 0 < n <= |blocks|
    ensures Room(blocks[n..]) == Room(blocks) - Room(blocks[..n]) && Room(blocks[..n]) >= blocks[n-1].room
    ensures Room(blocks[1..]) == Room(blocks) - blocks[0].room
  {
    RoomSplit(blocks, n);
    RoomSplit(blocks, 1);
    RoomOne(blocks[0]);
    assert blocks[..1] == [blocks[0]];
    assert blocks[..n][..n-1] == blocks[..n-1];
  }

  lemma ReadInContents(q: Queue, p: nat, c: Choice)
    requires Contents(q, RIn) && ReadIn(q, p, c).To?
    ensures var m := ReadIn(q, p, c); Contents(m.q, m.pc) && Reading(m.pc)
  {
    hide Room, FullBlock, LeftOf, AllFull;
    if q.blocks == [] {
    } else if c.op == 0 {
      RoomTaken(q.blocks, 1);
      FullTaken(q.cfg, q.blocks, 1);
      LeftFull(q.cfg, RCopy(q.blocks[0]), c.left);
    } else {
      ReadTakes(q, p, c);
    }
  }

  lemma ReadTakes(q: Queue, p: nat, c: Choice)
    requires Contents(q, RIn) && q.blocks != [] && c.op != 0 && ReadIn(q, p, c).To?
    ensures var m := ReadIn(q, p, c); Contents(m.q, m.pc) && Reading(m.pc)
  {
    hide Room, FullBlock, LeftOf, AllFull;
    var n := if q.cfg.coalesce && q.blocks[0].data == 0 then 1 else c.n;
    RoomTaken(q.blocks, n);
    FullTaken(q.cfg, q.blocks, n);
  }

  lemma FullTaken(cfg: Config, blocks: seq<Block>, n: nat)
    requires AllFull(cfg, blocks) && 0 < n <= |blocks|
    ensures AllFull(cfg, blocks[n..]) && AllFull(cfg, blocks[1..]) && FullBlock(cfg, blocks[n-1]) && FullBlock(cfg, blocks[0])
  {
  }

  lemma ReadBackContents(q: Queue, left: Option<Block>)
    requires Contents(q, RBackIn(left))
    ensures var m := ReadBack(q, left); m.To? && Contents(m.q, m.pc) && Reading(m.pc)
  {
    if left.Some? {
      RoomBack(q.blocks, left.value);
    }
  }

  lemma ReadContents(q: Queue, p: nat, pc: Pc, c: Choice)
    requires Contents(q, if Reading(pc) then pc else Idle) && Read(q, p, pc, c).To?
    ensures var m := Read(q, p, pc, c); Contents(m.q, if Reading(m.pc) then m.pc else Idle)
  {
    hide ReadIn, ReadBack, Room, FullBlock;
    if pc.RIn? {
      ReadInContents(q, p, c);
    } else if pc.RBackIn? {
      ReadBackContents(q, pc.left);
    } else {
      LeftFull(q.cfg, pc, c.left);
    }
  }

  lemma LeftFull(cfg: Config, pc: Pc, left: Option<Block>)
    ensures pc.RCopy? && LeftOf(left, pc.last) && left.Some? && FullBlock(cfg, pc.last) ==> FullBlock(cfg, left.value)
  {
  }

  lemma WriteContents(q: Queue, p: nat, pc: Pc, c: Choice, reader: Pc)
    requires Contents(q, reader) && Write(q, p, pc, c).To?
    ensures Contents(Write(q, p, pc, c).q, reader)
  {
    hide Room, AllFull;
    if pc.WIn? && !q.closed {
      RoomBack(q.blocks, c.block);
      FullAdded(q.cfg, q.blocks, c.block);
    }
  }

  lemma FullAdded(cfg: Config, blocks: seq<Block>, b: Block)
    requires AllFull(cfg, blocks) && FullBlock(cfg, b)
    ensures AllFull(cfg, blocks + [b])
  {
  }

  lemma SleepContents(q: Queue, p: nat, pc: Pc, reader: Pc)
    requires Contents(q, reader)
    ensures ReadSleep(q, p, pc).To? ==> Contents(ReadSleep(q, p, pc).q, ReadSleep(q, p, pc).pc)
    ensures WriteSleep(q, p, pc).To? ==> Contents(WriteSleep(q, p, pc).q, reader)
    ensures Close(q, p, pc).To? ==> Contents(Close(q, p, pc).q, reader)
  {
    hide Room, AllFull, ReadSleep, WriteSleep, Close;
    ReadSleepContents(q, p, pc, reader);
    WriteSleepContents(q, p, pc, reader);
    CloseContents(q, p, pc, reader);
  }

  lemma ReadSleepContents(q: Queue, p: nat, pc: Pc, reader: Pc)
    requires Contents(q, reader)
    ensures ReadSleep(q, p, pc).To? ==> Contents(ReadSleep(q, p, pc).q, ReadSleep(q, p, pc).pc)
  {
    hide Room, AllFull;
  }

  lemma WriteSleepContents(q: Queue, p: nat, pc: Pc, reader: Pc)
    requires Contents(q, reader)
    ensures WriteSleep(q, p, pc).To? ==> Contents(WriteSleep(q, p, pc).q, reader)
  {
    hide Room, AllFull;
  }

  lemma CloseContents(q: Queue, p: nat, pc: Pc, reader: Pc)
    requires Contents(q, reader)
    ensures Close(q, p, pc).To? ==> Contents(Close(q, p, pc).q, reader)
  {
    hide Room, AllFull;
    assert Room([]) == 0 && AllFull(q.cfg, []) by { Nothing(q.cfg); }
  }

  lemma Nothing(cfg: Config)
    ensures Room([]) == 0 && AllFull(cfg, [])
  {
  }

  /** Where the reader, or the writer, is after a step from c to d of process p; it was at own. */
  function After(own: Pc, was: bool, now: bool, d: Pc): Pc
  {
    if now then d else if was then Idle else own
  }

  /** The blocks and the count stay right, whoever takes the step. */
  lemma StepContents(q: Queue, p: nat, pc: Pc, c: Choice, reader: Pc)
    requires Contents(q, reader) && Step(q, p, pc, c).To? && (Reading(pc) ==> reader == pc)
    requires pc.RWantR? && q.rown.None? ==> reader == Idle
    ensures var m := Step(q, p, pc, c); Contents(m.q, After(reader, Reading(pc), Reading(m.pc), m.pc))
  {
    hide Start, Read, ReadSleep, Write, WriteSleep, Close, Contents, Reading, FullLeft;
    SleepContents(q, p, pc, reader);
    Sides(q, p, pc, c);
    if Write(q, p, pc, c).To? { WriteContents(q, p, pc, c, reader); }
    if Read(q, p, pc, c).To? { ReadContents(q, p, pc, c); }
  }

  /** Each part of the program is taken by the process on its side only. */
  lemma Sides(q: Queue, p: nat, pc: Pc, c: Choice)
    ensures Start(q, pc, c).To? ==> pc.Idle? && Start(q, pc, c).q == q
    ensures Read(q, p, pc, c).To? ==> Reading(pc) || (pc.RWantR? && q.rown.None?)
    ensures ReadSleep(q, p, pc).To? ==> Reading(pc) && Reading(ReadSleep(q, p, pc).pc)
    ensures var m := Start(q, pc, c); m.To? ==> !Reading(pc) && !Reading(m.pc) && !Writing(pc) && !Writing(m.pc)
    ensures var m := Write(q, p, pc, c); m.To? ==> !Reading(pc) && !Reading(m.pc)
    ensures var m := WriteSleep(q, p, pc); m.To? ==> !Reading(pc) && !Reading(m.pc)
    ensures var m := Close(q, p, pc); m.To? ==> !Reading(pc) && !Reading(m.pc)
  {
  }

  // No wakeup is lost.

  /** What holds around a process at pc, with the reader and the writer where they are. */
  predicate Around(q: Queue, p: nat, pc: Pc, reader: Pc, writer: Pc)
  {
    && Local(q, p, pc) && Parks(q, p, pc)
    && (Reading(pc) ==> reader == pc) && (Writing(pc) ==> writer == pc)
    && (InRl(reader) ==> q.rl.Some?) && (InWl(writer) ==> q.wl.Some?)
    && (q.rp.Some? ==> reader.RParked? && q.rp == q.rown) && (q.wp.Some? ==> writer.WParked? && q.wp == q.wown)
    && (q.rown.None? ==> reader.Idle?) && (q.wown.None? ==> writer.Idle?)
    && (Reading(reader) || reader.Idle?) && (Writing(writer) || writer.Idle?)
  }

  lemma StateAround(s: State, p: nat)
    requires Locks(s) && Parking(s) && p < |s.pc|
    ensures Around(s.q, p, s.pc[p], ReaderAt(s), WriterAt(s))
  {
    Sleepers(s, p);
    if s.q.rp.Some? { Sleepers(s, s.q.rp.value); }
    if s.q.wp.Some? { Sleepers(s, s.q.wp.value); }
    if s.q.rown.Some? { assert Local(s.q, s.q.rown.value, ReaderAt(s)); }
    if s.q.wown.Some? { assert Local(s.q, s.q.wown.value, WriterAt(s)); }
  }

  /** The moved process and the others together keep the reader's promise. */
  predicate KeepsReader(q: Queue, pc: Pc, m: Moved, reader: Pc, pend: bool)
  {
    m.To? && ReaderSafe(q, reader, pend || WakesR(pc)) ==>
      ReaderSafe(m.q, After(reader, Reading(pc), Reading(m.pc), m.pc), pend || WakesR(m.pc))
  }

  predicate KeepsWriter(q: Queue, pc: Pc, m: Moved, reader: Pc, writer: Pc, pend: bool)
  {
    m.To? && WriterSafe(q, reader, writer, pend || WakesW(pc)) ==>
      WriterSafe(m.q, After(reader, Reading(pc), Reading(m.pc), m.pc), After(writer, Writing(pc), Writing(m.pc), m.pc),
                 pend || WakesW(m.pc))
  }

  lemma StartKeepsReader(q: Queue, p: nat, pc: Pc, c: Choice, reader: Pc, writer: Pc, pend: bool)
    requires Around(q, p, pc, reader, writer)
    ensures KeepsReader(q, pc, Start(q, pc, c), reader, pend)
  {
  }

  lemma ReadInKeepsReader(q: Queue, p: nat, c: Choice, writer: Pc, pend: bool)
    requires Around(q, p, RIn, RIn, writer)
    ensures KeepsReader(q, RIn, ReadIn(q, p, c), RIn, pend)
  {
    hide Local, Parks, Room, LeftOf;
  }

  lemma ReadBackKeepsReader(q: Queue, p: nat, left: Option<Block>, writer: Pc, pend: bool)
    requires Around(q, p, RBackIn(left), RBackIn(left), writer)
    ensures KeepsReader(q, RBackIn(left), ReadBack(q, left), RBackIn(left), pend)
  {
    hide Local, Parks;
  }

  lemma ReadKeepsReader(q: Queue, p: nat, pc: Pc, c: Choice, reader: Pc, writer: Pc, pend: bool)
    requires Around(q, p, pc, reader, writer)
    ensures KeepsReader(q, pc, Read(q, p, pc, c), reader, pend)
  {
    hide ReadIn, ReadBack;
    if pc.RIn? {
      ReadInKeepsReader(q, p, c, writer, pend);
    } else if pc.RBackIn? {
      ReadBackKeepsReader(q, p, pc.left, writer, pend);
    }
  }

  lemma ReadSleepKeepsReader(q: Queue, p: nat, pc: Pc, reader: Pc, writer: Pc, pend: bool)
    requires Around(q, p, pc, reader, writer)
    ensures KeepsReader(q, pc, ReadSleep(q, p, pc), reader, pend)
  {
  }

  lemma WriteKeepsReader(q: Queue, p: nat, pc: Pc, c: Choice, reader: Pc, writer: Pc, pend: bool)
    requires Around(q, p, pc, reader, writer)
    ensures KeepsReader(q, pc, Write(q, p, pc, c), reader, pend)
  {
    hide Parks, Local, KeepsReader, KeepsWriter, Around, Write;
    if pc.WWantW? || pc.WWantL? {
      WriteEnterKeepsReader(q, p, pc, c, reader, writer, pend);
    } else if pc.WIn? || pc.WWakeR? {
      WriteInKeepsReader(q, p, pc, c, reader, writer, pend);
    } else {
      WriteFlowKeepsReader(q, p, pc, c, reader, writer, pend);
    }
  }

  lemma WriteEnterKeepsReader(q: Queue, p: nat, pc: Pc, c: Choice, reader: Pc, writer: Pc, pend: bool)
    requires Around(q, p, pc, reader, writer) && (pc.WWantW? || pc.WWantL?)
    ensures KeepsReader(q, pc, Write(q, p, pc, c), reader, pend)
  {
    hide Parks;
  }

  lemma WriteInKeepsReader(q: Queue, p: nat, pc: Pc, c: Choice, reader: Pc, writer: Pc, pend: bool)
    requires Around(q, p, pc, reader, writer) && (pc.WIn? || pc.WWakeR?)
    ensures KeepsReader(q, pc, Write(q, p, pc, c), reader, pend)
  {
    hide Parks;
  }

  lemma WriteFlowKeepsReader(q: Queue, p: nat, pc: Pc, c: Choice, reader: Pc, writer: Pc, pend: bool)
    requires Around(q, p, pc, reader, writer) && !(pc.WWantW? || pc.WWantL? || pc.WIn? || pc.WWakeR?)
    ensures KeepsReader(q, pc, Write(q, p, pc, c), reader, pend)
  {
    hide Parks;
  }

  lemma WriteSleepKeepsReader(q: Queue, p: nat, pc: Pc, reader: Pc, writer: Pc, pend: bool)
    requires Around(q, p, pc, reader, writer)
    ensures KeepsReader(q, pc, WriteSleep(q, p, pc), reader, pend)
  {
  }

  lemma CloseKeepsReader(q: Queue, p: nat, pc: Pc, reader: Pc, writer: Pc, pend: bool)
    requires Around(q, p, pc, reader, writer)
    ensures KeepsReader(q, pc, Close(q, p, pc), reader, pend)
  {
  }

  lemma InterruptKeepsReader(q: Queue, p: nat, pc: Pc, reader: Pc, writer: Pc, pend: bool)
    requires Around(q, p, pc, reader, writer)
    ensures KeepsReader(q, pc, Interrupt(q, p, pc), reader, pend)
  {
    if Interrupt(q, p, pc).To? {
      InterruptMoves(q, p, pc);
    }
    hide Interrupt;
  }

  /** Reads that coalesce drop empty blocks without a look at the writers; no such block is written. */
  predicate NothingDropped(cfg: Config)
  {
    !(cfg.coalesce && cfg.empties)
  }

  lemma HeldRoom(q: Queue, reader: Pc)
    requires Contents(q, reader)
    ensures Held(reader) >= 0 && q.len >= 0
  {
  }

  /** What a read takes leaves room for what may come back, and the reader will look at the writers. */
  lemma ReadInRoom(q: Queue, p: nat, c: Choice)
    requires q.len == Room(q.blocks) && (q.blocks != [] && q.cfg.coalesce ==> q.blocks[0].data != 0) && ReadIn(q, p, c).To?
    ensures var m := ReadIn(q, p, c);
      && m.q.cfg == q.cfg && m.q.flow == q.flow && m.q.closed == q.closed && m.q.wp == q.wp
      && Reading(m.pc) && (if Checking(m.pc) then m.q.len + Held(m.pc) <= q.len else m.q.len == q.len && Held(m.pc) == 0)
  {
    hide Room;
    if q.blocks != [] {
      RoomTaken(q.blocks, if 1 <= c.n <= |q.blocks| then c.n else 1);
    }
  }

  lemma ReadInKeepsWriter(q: Queue, p: nat, c: Choice, writer: Pc, pend: bool)
    requires q.len == Room(q.blocks) && (q.blocks != [] && q.cfg.coalesce ==> q.blocks[0].data != 0)
    ensures KeepsWriter(q, RIn, ReadIn(q, p, c), RIn, writer, pend)
  {
    if ReadIn(q, p, c).To? {
      ReadInRoom(q, p, c);
      hide ReadIn;
    }
  }

  lemma FirstHasData(q: Queue)
    requires Contents(q, RIn) && NothingDropped(q.cfg)
    ensures q.blocks != [] && q.cfg.coalesce ==> q.blocks[0].data != 0
  {
    if q.blocks != [] {
      assert FullBlock(q.cfg, q.blocks[0]);
    }
  }

  lemma ReadBackKeepsWriter(q: Queue, p: nat, left: Option<Block>, writer: Pc, pend: bool)
    ensures KeepsWriter(q, RBackIn(left), ReadBack(q, left), RBackIn(left), writer, pend)
  {
  }

  lemma ReadKeepsWriter(q: Queue, p: nat, pc: Pc, c: Choice, reader: Pc, writer: Pc, pend: bool)
    requires Around(q, p, pc, reader, writer) && Contents(q, reader) && NothingDropped(q.cfg)
    ensures KeepsWriter(q, pc, Read(q, p, pc, c), reader, writer, pend)
  {
    HeldRoom(q, reader);
    if pc.RIn? {
      FirstHasData(q);
      ReadInKeepsWriter(q, p, c, writer, pend);
    } else if pc.RBackIn? {
      ReadBackKeepsWriter(q, p, pc.left, writer, pend);
    } else {
      ReadRestKeepsWriter(q, p, pc, c, reader, writer, pend);
    }
    hide ReadIn, ReadBack, NothingDropped, KeepsWriter, Around, Contents;
  }

  lemma ReadRestKeepsWriter(q: Queue, p: nat, pc: Pc, c: Choice, reader: Pc, writer: Pc, pend: bool)
    requires Around(q, p, pc, reader, writer) && Held(reader) >= 0 && !pc.RIn? && !pc.RBackIn?
    ensures KeepsWriter(q, pc, Read(q, p, pc, c), reader, writer, pend)
  {
    hide ReadIn, ReadBack, Parks, KeepsWriter, Around, Local;
    if pc.RWakeW? { WakeKeepsWriter(q, p, reader, writer, pend); } else { ReadStepKeepsWriter(q, p, pc, c, reader, writer, pend); }
  }

  lemma WakeKeepsWriter(q: Queue, p: nat, reader: Pc, writer: Pc, pend: bool)
    requires Around(q, p, RWakeW, reader, writer)
    ensures KeepsWriter(q, RWakeW, Read(q, p, RWakeW, Any), reader, writer, pend)
  {
    hide ReadIn, ReadBack, Parks;
  }

  lemma ReadStepKeepsWriter(q: Queue, p: nat, pc: Pc, c: Choice, reader: Pc, writer: Pc, pend: bool)
    requires Around(q, p, pc, reader, writer) && Held(reader) >= 0 && !pc.RIn? && !pc.RBackIn? && !pc.RWakeW?
    ensures KeepsWriter(q, pc, Read(q, p, pc, c), reader, writer, pend)
  {
    hide ReadIn, ReadBack, Parks;
  }

  lemma StartKeepsWriter(q: Queue, p: nat, pc: Pc, c: Choice, reader: Pc, writer: Pc, pend: bool)
    requires Around(q, p, pc, reader, writer) && Held(reader) >= 0
    ensures KeepsWriter(q, pc, Start(q, pc, c), reader, writer, pend)
  {
  }

  lemma ReadSleepKeepsWriter(q: Queue, p: nat, pc: Pc, reader: Pc, writer: Pc, pend: bool)
    requires Around(q, p, pc, reader, writer) && Held(reader) >= 0
    ensures KeepsWriter(q, pc, ReadSleep(q, p, pc), reader, writer, pend)
  {
  }

  lemma WriteKeepsWriter(q: Queue, p: nat, pc: Pc, c: Choice, reader: Pc, writer: Pc, pend: bool)
    requires Around(q, p, pc, reader, writer) && Held(reader) >= 0
    ensures KeepsWriter(q, pc, Write(q, p, pc, c), reader, writer, pend)
  {
    hide Parks, Local, KeepsReader, KeepsWriter, Around, Write;
    if pc.WWantW? || pc.WWantL? {
      WriteEnterKeepsWriter(q, p, pc, c, reader, writer, pend);
    } else if pc.WIn? || pc.WWakeR? {
      WriteInKeepsWriter(q, p, pc, c, reader, writer, pend);
    } else {
      WriteFlowKeepsWriter(q, p, pc, c, reader, writer, pend);
    }
  }

  lemma WriteEnterKeepsWriter(q: Queue, p: nat, pc: Pc, c: Choice, reader: Pc, writer: Pc, pend: bool)
    requires Around(q, p, pc, reader, writer) && Held(reader) >= 0 && (pc.WWantW? || pc.WWantL?)
    ensures KeepsWriter(q, pc, Write(q, p, pc, c), reader, writer, pend)
  {
    hide Parks;
  }

  lemma WriteInKeepsWriter(q: Queue, p: nat, pc: Pc, c: Choice, reader: Pc, writer: Pc, pend: bool)
    requires Around(q, p, pc, reader, writer) && Held(reader) >= 0 && (pc.WIn? || pc.WWakeR?)
    ensures KeepsWriter(q, pc, Write(q, p, pc, c), reader, writer, pend)
  {
    hide Parks;
  }

  lemma WriteFlowKeepsWriter(q: Queue, p: nat, pc: Pc, c: Choice, reader: Pc, writer: Pc, pend: bool)
    requires Around(q, p, pc, reader, writer) && Held(reader) >= 0 && !(pc.WWantW? || pc.WWantL? || pc.WIn? || pc.WWakeR?)
    ensures KeepsWriter(q, pc, Write(q, p, pc, c), reader, writer, pend)
  {
    hide Parks;
  }

  lemma WriteSleepKeepsWriter(q: Queue, p: nat, pc: Pc, reader: Pc, writer: Pc, pend: bool)
    requires Around(q, p, pc, reader, writer) && Held(reader) >= 0
    ensures KeepsWriter(q, pc, WriteSleep(q, p, pc), reader, writer, pend)
  {
  }

  lemma CloseKeepsWriter(q: Queue, p: nat, pc: Pc, reader: Pc, writer: Pc, pend: bool)
    requires Around(q, p, pc, reader, writer) && Held(reader) >= 0
    ensures KeepsWriter(q, pc, Close(q, p, pc), reader, writer, pend)
  {
  }

  lemma InterruptKeepsWriter(q: Queue, p: nat, pc: Pc, reader: Pc, writer: Pc, pend: bool)
    requires Around(q, p, pc, reader, writer) && Held(reader) >= 0
    ensures KeepsWriter(q, pc, Interrupt(q, p, pc), reader, writer, pend)
  {
    if Interrupt(q, p, pc).To? {
      InterruptMoves(q, p, pc);
    }
    hide Interrupt;
  }

  lemma StepKeeps(q: Queue, p: nat, pc: Pc, c: Choice, reader: Pc, writer: Pc, pendR: bool, pendW: bool)
    requires Around(q, p, pc, reader, writer) && Contents(q, reader) && Step(q, p, pc, c).To?
    ensures KeepsReader(q, pc, Step(q, p, pc, c), reader, pendR)
    ensures NothingDropped(q.cfg) ==> KeepsWriter(q, pc, Step(q, p, pc, c), reader, writer, pendW)
  {
    HeldRoom(q, reader);
    hide Start, Read, ReadSleep, Write, WriteSleep, Close, KeepsReader, KeepsWriter, Around, Contents, Held, NothingDropped;
    StartKeepsReader(q, p, pc, c, reader, writer, pendR);
    ReadKeepsReader(q, p, pc, c, reader, writer, pendR);
    ReadSleepKeepsReader(q, p, pc, reader, writer, pendR);
    WriteKeepsReader(q, p, pc, c, reader, writer, pendR);
    WriteSleepKeepsReader(q, p, pc, reader, writer, pendR);
    CloseKeepsReader(q, p, pc, reader, writer, pendR);
    StartKeepsWriter(q, p, pc, c, reader, writer, pendW);
    if NothingDropped(q.cfg) { ReadKeepsWriter(q, p, pc, c, reader, writer, pendW); }
    ReadSleepKeepsWriter(q, p, pc, reader, writer, pendW);
    WriteKeepsWriter(q, p, pc, c, reader, writer, pendW);
    WriteSleepKeepsWriter(q, p, pc, reader, writer, pendW);
    CloseKeepsWriter(q, p, pc, reader, writer, pendW);
  }

  /** Whoever has rlock and wlock after a step is where the step leaves it. */
  lemma SidesMove(s: State, t: State, p: nat)
    requires Locks(s) && p < |s.pc| && |t.pc| == |s.pc| && t.pc == s.pc[p := t.pc[p]]
    requires LockMoves(s.q, t.q, p, s.pc[p], t.pc[p])
    ensures ReaderAt(t) == After(ReaderAt(s), Reading(s.pc[p]), Reading(t.pc[p]), t.pc[p])
    ensures WriterAt(t) == After(WriterAt(s), Writing(s.pc[p]), Writing(t.pc[p]), t.pc[p])
  {
    assert Local(s.q, p, s.pc[p]);
    hide Reading, Writing, InL, InRl, InWl;
    if t.q.rown.Some? && t.q.rown.value != p { assert t.pc[t.q.rown.value] == s.pc[t.q.rown.value]; }
    if t.q.wown.Some? && t.q.wown.value != p { assert t.pc[t.q.wown.value] == s.pc[t.q.wown.value]; }
  }

  ghost predicate OthersWakeR(s: State, p: nat)
  {
    exists r :: 0 <= r < |s.pc| && r != p && WakesR(s.pc[r])
  }

  ghost predicate OthersWakeW(s: State, p: nat)
  {
    exists r :: 0 <= r < |s.pc| && r != p && WakesW(s.pc[r])
  }

  lemma Pendings(s: State, t: State, p: nat)
    requires p < |s.pc| && |t.pc| == |s.pc| && t.pc == s.pc[p := t.pc[p]]
    ensures PendingR(s) <==> OthersWakeR(s, p) || WakesR(s.pc[p])
    ensures PendingR(t) <==> OthersWakeR(s, p) || WakesR(t.pc[p])
    ensures PendingW(s) <==> OthersWakeW(s, p) || WakesW(s.pc[p])
    ensures PendingW(t) <==> OthersWakeW(s, p) || WakesW(t.pc[p])
  {
    hide WakesR, WakesW;
    forall r | 0 <= r < |s.pc| && r != p ensures t.pc[r] == s.pc[r] { }
  }

  lemma OneStep(s: State, t: State, p: nat, c: Choice)
    requires Inv(s) && p < |s.pc| && Step(s.q, p, s.pc[p], c).To?
    requires var m := Step(s.q, p, s.pc[p], c); t == State(m.q, s.pc[p := m.pc])
    ensures Inv(t) && t.q.cfg == s.q.cfg
    ensures WriterInv(s) && NothingDropped(s.q.cfg) ==> WriterInv(t)
  {
    var pc := s.pc[p];
    assert Local(s.q, p, pc);
    StateAround(s, p);
    StepLocks(s.q, p, pc, c);
    StepParks(s.q, p, pc, c);
    assert pc.RWantR? && s.q.rown.None? ==> ReaderAt(s) == Idle;
    assert Reading(pc) ==> ReaderAt(s) == pc;
    StepContents(s.q, p, pc, c, ReaderAt(s));
    StepKeeps(s.q, p, pc, c, ReaderAt(s), WriterAt(s), OthersWakeR(s, p), OthersWakeW(s, p));
    hide Step, Locks, Parking, Contents, ReaderSafe, WriterSafe, PendingR, PendingW, OthersWakeR, OthersWakeW, Reading, Writing, WakesR, WakesW,
         ReaderAt, WriterAt, Around, Local, NothingDropped, ParkMove;
    MoveLocks(s, t, p);
    MoveParking(s, t, p);
    SidesMove(s, t, p);
    Pendings(s, t, p);
  }

  lemma OneInterrupt(s: State, t: State, p: nat)
    requires Inv(s) && p < |s.pc| && Interrupt(s.q, p, s.pc[p]).To?
    requires var m := Interrupt(s.q, p, s.pc[p]); t == State(m.q, s.pc[p := m.pc])
    ensures Inv(t) && t.q.cfg == s.q.cfg
    ensures WriterInv(s) ==> WriterInv(t)
  {
    var pc := s.pc[p];
    InterruptMoves(s.q, p, pc);
    StateAround(s, p);
    HeldRoom(s.q, ReaderAt(s));
    InterruptKeepsReader(s.q, p, pc, ReaderAt(s), WriterAt(s), OthersWakeR(s, p));
    InterruptKeepsWriter(s.q, p, pc, ReaderAt(s), WriterAt(s), OthersWakeW(s, p));
    assert t.pc == s.pc;
    Pendings(s, t, p);
    InterruptParks(s, t, p);
    hide Interrupt, Reading, Writing, InL, InRl, InWl, WakesR, WakesW, ReaderSafe, WriterSafe, PendingR, PendingW, OthersWakeR, OthersWakeW, Contents;
    assert Contents(t.q, ReaderAt(t)) by { SameContents(s.q, t.q, ReaderAt(s)); }
    assert Locks(t) by {
      forall r | 0 <= r < |t.pc| ensures Local(t.q, r, t.pc[r]) { assert Local(s.q, r, s.pc[r]); }
    }
  }

  lemma SameContents(q: Queue, t: Queue, reader: Pc)
    requires Contents(q, reader) && t.blocks == q.blocks && t.len == q.len && t.cfg == q.cfg
    ensures Contents(t, reader)
  {
  }

  lemma InterruptParks(s: State, t: State, p: nat)
    requires Locks(s) && Parking(s) && p < |s.pc| && t.pc == s.pc && t.q.panic == s.q.panic
    requires if s.pc[p].RParked? && s.q.rp == Some(p) then SameParking(WakeR(s.q), t.q)
             else if s.pc[p].WParked? && s.q.wp == Some(p) then SameParking(WakeW(s.q), t.q)
             else SameParking(s.q, t.q)
    ensures Parking(t)
  {
    Sleepers(s, p);
    hide Locks;
    forall r | 0 <= r < |t.pc| ensures Parks(t.q, r, t.pc[r]) {
      assert Parks(s.q, r, s.pc[r]);
    }
  }

  lemma StepInv(s: State, t: State, p: nat)
    requires Inv(s) && Next(s, t, p)
    ensures Inv(t) && t.q.cfg == s.q.cfg
    ensures WriterInv(s) && NothingDropped(s.q.cfg) ==> WriterInv(t)
  {
    hide Step, Interrupt, Inv, WriterInv, NothingDropped;
    var m: Moved :| m.To? && t == State(m.q, s.pc[p := m.pc]) &&
      ((exists c :: m == Step(s.q, p, s.pc[p], c)) || m == Interrupt(s.q, p, s.pc[p]));
    if m == Interrupt(s.q, p, s.pc[p]) {
      OneInterrupt(s, t, p);
    } else {
      var c :| m == Step(s.q, p, s.pc[p], c);
      OneStep(s, t, p, c);
    }
  }

  // Runs: every process may step, or be interrupted, at any time.

  ghost predicate Follows(s: State, t: State)
  {
    exists p :: Next(s, t, p)
  }

  ghost predicate IsRun(r: seq<State>)
  {
    |r| > 0 && Init(r[0]) && forall k :: 0 <= k < |r| - 1 ==> Follows(r[k], r[k+1])
  }

  lemma {:induction false} RunInv(r: seq<State>, k: nat)
    requires IsRun(r) && k < |r|
    ensures Inv(r[k]) && r[k].q.cfg == r[0].q.cfg
    ensures NothingDropped(r[0].q.cfg) ==> WriterInv(r[k])
  {
    hide Inv, WriterInv, NothingDropped, Next, Init;
    if k == 0 {
      InitInv(r[0]);
    } else {
      RunInv(r, k - 1);
      assert Follows(r[k-1], r[k]);
      var p :| Next(r[k-1], r[k], p);
      StepInv(r[k-1], r[k], p);
    }
  }

  /** Sleep never finds another process on its rendezvous. */
  lemma NeverPanics(r: seq<State>, k: nat)
    requires IsRun(r) && k < |r|
    ensures !r[k].q.panic
  {
    RunInv(r, k);
  }

  /** A process is between calls, asleep with no wakeup kept for it, or waits for rlock or wlock. */
  predicate AtRest(q: Queue, p: nat, pc: Pc)
  {
    pc.Idle? || pc.RWantR? || pc.WWantW? || ((pc.RParked? || pc.WParked?) && p !in q.wake)
  }

  ghost predicate Quiet(s: State)
  {
    forall p :: 0 <= p < |s.pc| ==> AtRest(s.q, p, s.pc[p])
  }

  lemma QuietPending(s: State)
    requires Quiet(s)
    ensures !PendingR(s) && !PendingW(s)
  {
    forall p | 0 <= p < |s.pc| ensures !WakesR(s.pc[p]) && !WakesW(s.pc[p]) {
      assert AtRest(s.q, p, s.pc[p]);
    }
  }

  /** With every process at rest, a reader sleeps only on an empty open queue that knows of it. */
  lemma ReaderNotForgotten(r: seq<State>, k: nat, p: nat)
    requires IsRun(r) && k < |r| && Quiet(r[k]) && p < |r[k].pc| && r[k].pc[p].RParked?
    ensures r[k].q.blocks == [] && !r[k].q.closed && r[k].q.starve
  {
    RunInv(r, k);
    QuietPending(r[k]);
    Sleepers(r[k], p);
    assert AtRest(r[k].q, p, r[k].pc[p]);
  }

  /** And a writer only on an open queue at least half full that knows of it, if no read drops empty blocks. */
  lemma WriterNotForgotten(r: seq<State>, k: nat, p: nat)
    requires IsRun(r) && k < |r| && Quiet(r[k]) && p < |r[k].pc| && r[k].pc[p].WParked?
    requires NothingDropped(r[0].q.cfg)
    ensures !r[k].q.closed && r[k].q.flow && r[k].q.len >= r[k].q.cfg.limit / 2
  {
    var s := r[k];
    RunInv(r, k);
    QuietPending(s);
    Sleepers(s, p);
    assert AtRest(s.q, p, s.pc[p]);
    if s.q.rown.Some? { assert AtRest(s.q, s.q.rown.value, ReaderAt(s)); }
  }

  /** So a reader and a writer never sleep at once on a queue with a limit of two or more. */
  lemma NotBothAsleep(r: seq<State>, k: nat, p: nat, o: nat)
    requires IsRun(r) && k < |r| && Quiet(r[k]) && p < |r[k].pc| && o < |r[k].pc|
    requires NothingDropped(r[0].q.cfg) && r[0].q.cfg.limit >= 2
    ensures !(r[k].pc[p].RParked? && r[k].pc[o].WParked?)
  {
    if r[k].pc[p].RParked? && r[k].pc[o].WParked? {
      ReaderNotForgotten(r, k, p);
      WriterNotForgotten(r, k, o);
      RunInv(r, k);
      assert false by { NoRoom(r[k].q.blocks); }
    }
  }

  lemma NoRoom(blocks: seq<Block>)
    ensures blocks == [] ==> Room(blocks) == 0
  {
  }

  // How full a queue gets.

  /** A writer that has queued its block and has yet to see that the queue is not full. */
  predicate Busy(pc: Pc)
  {
    || pc.WWakeR? || pc.WCheck? || pc.WFlowL? || pc.WFlowIn?
    || pc.WSleep? || pc.WSleepIn? || pc.WSleepPark? || pc.WParked? || pc.WSlept?
  }

  predicate Small(blocks: seq<Block>, m: nat)
  {
    forall k :: 0 <= k < |blocks| ==> blocks[k].room <= m
  }

  /** While no writer is held up the queue, with what a reader may put back, is less than a block over its limit. */
  predicate Bounded(q: Queue, reader: Pc, writer: Pc, m: nat)
  {
    && Small(q.blocks, m) && Held(reader) <= m && q.intr == {}
    && (q.closed ==> q.len + Held(reader) <= m)
    && (!q.closed && !Busy(writer) ==> q.len + Held(reader) < q.cfg.limit + m)
  }

  /** A step that does not add to the queue and leaves the writer where it was. */
  predicate Shrinks(q: Queue, t: Queue, before: Pc, after: Pc)
  {
    t.cfg == q.cfg && t.closed == q.closed && t.intr == q.intr && t.len + Held(after) <= q.len + Held(before)
  }

  lemma ReadInShrinks(q: Queue, p: nat, c: Choice, m: nat)
    requires Contents(q, RIn) && ReadIn(q, p, c).To? && Small(q.blocks, m)
    ensures var t := ReadIn(q, p, c); Shrinks(q, t.q, RIn, t.pc) && Reading(t.pc) && Held(t.pc) <= m
  {
    hide Room;
    if q.blocks != [] {
      RoomTaken(q.blocks, if c.op != 0 && 1 <= c.n <= |q.blocks| then c.n else 1);
    }
  }

  lemma ReadShrinks(q: Queue, p: nat, pc: Pc, c: Choice, m: nat)
    requires Read(q, p, pc, c).To? && (Reading(pc) ==> Contents(q, pc)) && Small(q.blocks, m) && Held(pc) <= m
    ensures var t := Read(q, p, pc, c); Shrinks(q, t.q, pc, t.pc) && Held(t.pc) <= m
  {
    hide ReadIn, Contents, Small;
    if pc.RIn? { ReadInShrinks(q, p, c, m); }
  }

  /** Everything but a write and a close. */
  lemma ShrinksBounded(q: Queue, t: Queue, reader: Pc, reader': Pc, writer: Pc, writer': Pc, m: nat)
    requires Bounded(q, reader, writer, m) && Shrinks(q, t, reader, reader') && Held(reader') <= m && Small(t.blocks, m)
    requires !Busy(writer') && !t.closed ==> !Busy(writer) || t.len < t.cfg.limit
    ensures Bounded(t, reader', writer', m)
  {
  }

  lemma WriteBounded(q: Queue, p: nat, pc: Pc, c: Choice, reader: Pc, m: nat)
    requires Write(q, p, pc, c).To? && Small(Write(q, p, pc, c).q.blocks, m)
    requires Bounded(q, reader, if Writing(pc) then pc else Idle, m)
    ensures var t := Write(q, p, pc, c); Bounded(t.q, reader, if Writing(t.pc) then t.pc else Idle, m)
  {
    hide Small, Held;
  }

  lemma WriteSleepBounded(q: Queue, p: nat, pc: Pc, reader: Pc, m: nat)
    requires WriteSleep(q, p, pc).To? && Bounded(q, reader, pc, m)
    ensures var t := WriteSleep(q, p, pc); Bounded(t.q, reader, t.pc, m)
  {
    hide Small, Held;
  }

  lemma CloseBounded(q: Queue, p: nat, pc: Pc, reader: Pc, writer: Pc, m: nat)
    requires Close(q, p, pc).To? && Bounded(q, reader, writer, m)
    ensures Bounded(Close(q, p, pc).q, reader, writer, m)
  {
    hide Held;
  }

  lemma ReadSleepBounded(q: Queue, p: nat, pc: Pc, writer: Pc, m: nat)
    requires ReadSleep(q, p, pc).To? && Bounded(q, pc, writer, m)
    ensures Bounded(ReadSleep(q, p, pc).q, ReadSleep(q, p, pc).pc, writer, m)
  {
    hide Small;
  }

  lemma WriteSides(q: Queue, p: nat, pc: Pc, c: Choice)
    ensures Write(q, p, pc, c).To? ==> Writing(pc) || (pc.WWantW? && q.wown.None?)
    ensures WriteSleep(q, p, pc).To? ==> Writing(pc) && Writing(WriteSleep(q, p, pc).pc)
    ensures Read(q, p, pc, c).To? ==> !Writing(pc) && !Writing(Read(q, p, pc, c).pc)
    ensures ReadSleep(q, p, pc).To? ==> !Writing(pc) && !Writing(ReadSleep(q, p, pc).pc)
    ensures Close(q, p, pc).To? ==> !Writing(pc) && !Writing(Close(q, p, pc).pc)
  {
  }

  lemma StepBounded(q: Queue, p: nat, pc: Pc, c: Choice, reader: Pc, writer: Pc, m: nat)
    requires Around(q, p, pc, reader, writer) && Contents(q, reader) && Step(q, p, pc, c).To?
    requires Bounded(q, reader, writer, m) && Small(Step(q, p, pc, c).q.blocks, m)
    ensures var t := Step(q, p, pc, c);
      Bounded(t.q, After(reader, Reading(pc), Reading(t.pc), t.pc), After(writer, Writing(pc), Writing(t.pc), t.pc), m)
  {
    Sides(q, p, pc, c);
    WriteSides(q, p, pc, c);
    hide Start, Read, ReadSleep, Write, WriteSleep, Close, Contents, Small, Bounded, InL, InRl, InWl;
    if Start(q, pc, c).To? {
    } else if Read(q, p, pc, c).To? {
      ReadBounded(q, p, pc, c, reader, writer, m);
    } else if ReadSleep(q, p, pc).To? {
      ReadSleepBounded(q, p, pc, writer, m);
    } else if Write(q, p, pc, c).To? {
      WriteBounded(q, p, pc, c, reader, m);
    } else if WriteSleep(q, p, pc).To? {
      WriteSleepBounded(q, p, pc, reader, m);
    } else {
      CloseBounded(q, p, pc, reader, writer, m);
    }
  }

  lemma ReadBounded(q: Queue, p: nat, pc: Pc, c: Choice, reader: Pc, writer: Pc, m: nat)
    requires Contents(q, reader) && Read(q, p, pc, c).To? && (Reading(pc) ==> reader == pc) && (!Reading(pc) ==> pc.RWantR? && reader.Idle?)
    requires Bounded(q, reader, writer, m) && Small(Read(q, p, pc, c).q.blocks, m)
    ensures var t := Read(q, p, pc, c); Bounded(t.q, After(reader, Reading(pc), Reading(t.pc), t.pc), writer, m)
  {
    hide Read, Contents, Small;
    ReadShrinks(q, p, pc, c, m);
    var t := Read(q, p, pc, c);
    ReadEnds(q, p, pc, c);
    ShrinksBounded(q, t.q, reader, After(reader, Reading(pc), Reading(t.pc), t.pc), writer, writer, m);
  }

  lemma ReadEnds(q: Queue, p: nat, pc: Pc, c: Choice)
    requires Read(q, p, pc, c).To?
    ensures var t := Read(q, p, pc, c); !Reading(t.pc) ==> Held(t.pc) == 0 && (Reading(pc) || pc.RWantR?)
    ensures pc.RWantR? ==> Reading(Read(q, p, pc, c).pc)
  {
    hide ReadIn, ReadBack;
    if pc.RIn? { ReadInEnds(q, p, c); }
  }

  ghost predicate AllBounded(s: State, m: nat)
  {
    Bounded(s.q, ReaderAt(s), WriterAt(s), m)
  }

  lemma NextBounded(s: State, t: State, p: nat, m: nat)
    requires Inv(s) && AllBounded(s, m) && Next(s, t, p) && Small(t.q.blocks, m) && t.q.intr == {}
    ensures AllBounded(t, m)
  {
    hide Step, Interrupt, Inv, Bounded, Small;
    var v: Moved :| v.To? && t == State(v.q, s.pc[p := v.pc]) &&
      ((exists c :: v == Step(s.q, p, s.pc[p], c)) || v == Interrupt(s.q, p, s.pc[p]));
    if c :| v == Step(s.q, p, s.pc[p], c) {
      MovesBounded(s, t, p, c, m);
    } else {
      Interrupted(s.q, p, s.pc[p]);
      assert false;
    }
  }

  lemma Interrupted(q: Queue, p: nat, pc: Pc)
    requires Interrupt(q, p, pc).To?
    ensures Interrupt(q, p, pc).q.intr != {}
  {
    assert p in Interrupt(q, p, pc).q.intr;
  }

  lemma MovesBounded(s: State, t: State, p: nat, c: Choice, m: nat)
    requires Inv(s) && AllBounded(s, m) && p < |s.pc| && Step(s.q, p, s.pc[p], c).To?
    requires t == State(Step(s.q, p, s.pc[p], c).q, s.pc[p := Step(s.q, p, s.pc[p], c).pc]) && Small(t.q.blocks, m)
    ensures AllBounded(t, m)
  {
    StateAround(s, p);
    assert Local(s.q, p, s.pc[p]);
    StepLocks(s.q, p, s.pc[p], c);
    hide Step, Locks, Parking, Around, Contents, Bounded, Small, Reading, Writing, ReaderAt, WriterAt, ReaderSafe, Local;
    SidesMove(s, t, p);
    StepBounded(s.q, p, s.pc[p], c, ReaderAt(s), WriterAt(s), m);
  }

  /** Up to k nobody has been interrupted, and no block takes more room than m. */
  ghost predicate Undisturbed(r: seq<State>, k: nat, m: nat)
  {
    forall i :: 0 <= i <= k && i < |r| ==> r[i].q.intr == {} && Small(r[i].q.blocks, m)
  }

  lemma {:induction false} RunBounded(r: seq<State>, k: nat, m: nat)
    requires IsRun(r) && k < |r| && Undisturbed(r, k, m) && 0 < r[0].q.cfg.limit
    ensures AllBounded(r[k], m)
  {
    hide Inv, Next, Small;
    if k == 0 {
      assert ReaderAt(r[0]).Idle? && WriterAt(r[0]).Idle?;
    } else {
      RunInv(r, k - 1);
      RunBounded(r, k - 1, m);
      assert Follows(r[k-1], r[k]);
      var p :| Next(r[k-1], r[k], p);
      NextBounded(r[k-1], r[k], p, m);
    }
  }

  /**
   * Writers are held up: in a run without interruptions, whenever no writer is on its way through qbwrite with its
   * block queued or asleep there, the queue holds less than its limit and the room of one block more.
   */
  lemma WritersHeldUp(r: seq<State>, k: nat, m: nat)
    requires IsRun(r) && k < |r| && Undisturbed(r, k, m) && 0 < r[0].q.cfg.limit
    requires forall p :: 0 <= p < |r[k].pc| ==> !Busy(r[k].pc[p])
    ensures 0 <= r[k].q.len < r[k].q.cfg.limit + m
  {
    RunInv(r, k);
    RunBounded(r, k, m);
    HeldRoom(r[k].q, ReaderAt(r[k]));
    hide Locks, Parking, Contents, ReaderSafe;
  }

  /** Every process that is not at rest can step, unless another has a spin lock, and that one can. */
  lemma StuckIsQuiet(r: seq<State>, k: nat)
    requires IsRun(r) && k < |r|
    requires forall p, c :: 0 <= p < |r[k].pc| ==> r[k].pc[p].Idle? || Step(r[k].q, p, r[k].pc[p], c).Waits?
    ensures Quiet(r[k])
  {
    var s := r[k];
    RunInv(r, k);
    hide Step, Parking, Contents, ReaderSafe, InL, InRl, InWl, Reading, Writing;
    if s.q.l.Some? { assert Local(s.q, s.q.l.value, s.pc[s.q.l.value]); Blocked(s.q, s.q.l.value, s.pc[s.q.l.value]); }
    if s.q.rl.Some? { assert Local(s.q, s.q.rl.value, s.pc[s.q.rl.value]); Blocked(s.q, s.q.rl.value, s.pc[s.q.rl.value]); }
    if s.q.wl.Some? { assert Local(s.q, s.q.wl.value, s.pc[s.q.wl.value]); Blocked(s.q, s.q.wl.value, s.pc[s.q.wl.value]); }
    forall p | 0 <= p < |s.pc| ensures AtRest(s.q, p, s.pc[p]) {
      Blocked(s.q, p, s.pc[p]);
    }
  }

  /** A choice with which a process goes on whatever it is at. */
  const Any: Choice := Choice(1, 1, Block(1, 1), None)

  lemma Blocked(q: Queue, p: nat, pc: Pc)
    ensures Step(q, p, pc, Any).Waits? || pc.Idle? ==> !InL(pc) && !InRl(pc) && !InWl(pc)
    ensures Step(q, p, pc, Any).Waits? && q.l.None? && q.rl.None? && q.wl.None? ==> AtRest(q, p, pc)
    ensures pc.Idle? ==> AtRest(q, p, pc)
  {
  }

  // Where the promise to writers fails: a read that coalesces drops an empty block and goes back to
  // wait without a look at the writers.

  lemma Extend(r: seq<State>, p: nat, c: Choice, m: Moved) returns (r': seq<State>)
    requires IsRun(r) && p < |r[|r|-1].pc| && m.To? && Step(r[|r|-1].q, p, r[|r|-1].pc[p], c) == m
    ensures IsRun(r') && r'[0] == r[0] && r'[|r'|-1] == State(m.q, r[|r|-1].pc[p := m.pc])
  {
    hide Step, Init;
    var s := r[|r|-1];
    var t := State(m.q, s.pc[p := m.pc]);
    r' := r + [t];
    assert Next(s, t, p);
    assert Follows(s, t);
    forall k | 0 <= k < |r'| - 1 ensures Follows(r'[k], r'[k+1]) {
      if k < |r| - 1 { assert Follows(r[k], r[k+1]); }
    }
  }

  /** A writer comes to an empty queue. */
  lemma WriterEnters(limit: nat) returns (r: seq<State>, q: Queue)
    requires limit > 0
    ensures IsRun(r) && r[0].q.cfg == Config(limit, true, true) && r[|r|-1] == State(q, [Idle, WIn])
    ensures q == Queue(Config(limit, true, true), [], 0, true, false, false, Some(1), None, Some(1), None, None, None, None, {}, {}, false)
  {
    q := Queue(Config(limit, true, true), [], 0, true, false, false, None, None, None, None, None, None, None, {}, {}, false);
    assert Init(State(q, [Idle, Idle]));
    r := [State(q, [Idle, Idle])];
    r := Extend(r, 1, Any, To(q, WWantW));
    q := q.(wown := Some(1));
    r := Extend(r, 1, Any, To(q, WWantL));
    q := q.(l := Some(1));
    r := Extend(r, 1, Any, To(q, WIn));
    assert r[|r|-1].pc == [Idle, WIn];
  }

  /** It fills the queue with one empty block. */
  lemma WriterFills(limit: nat) returns (r: seq<State>, q: Queue)
    requires limit > 0
    ensures IsRun(r) && r[0].q.cfg == Config(limit, true, true) && r[|r|-1] == State(q, [Idle, WCheck])
    ensures q == Queue(Config(limit, true, true), [Block(0, limit)], limit, false, false, false,
                       None, None, Some(1), None, None, None, None, {}, {}, false)
  {
    var c := Choice(1, 1, Block(0, limit), None);
    var b := [Block(0, limit)];
    r, q := WriterEnters(limit);
    assert [] + b == b;
    q := q.(blocks := b, len := limit, starve := false, l := None);
    r := Extend(r, 1, c, To(q, WWakeR));
    r := Extend(r, 1, c, To(q, WCheck));
    assert r[|r|-1].pc == [Idle, WCheck];
  }

  /** It finds the queue full and asks for a wakeup. */
  lemma WriterAsks(limit: nat) returns (r: seq<State>, q: Queue)
    requires limit > 0
    ensures IsRun(r) && r[0].q.cfg == Config(limit, true, true) && r[|r|-1] == State(q, [Idle, WSleep])
    ensures q == Queue(Config(limit, true, true), [Block(0, limit)], limit, false, true, false,
                       None, None, Some(1), None, None, None, None, {}, {}, false)
  {
    r, q := WriterFills(limit);
    r := Extend(r, 1, Any, To(q, WFlowL));
    r := Extend(r, 1, Any, To(q.(l := Some(1)), WFlowIn));
    q := q.(flow := true);
    r := Extend(r, 1, Any, To(q, WSleep));
    assert r[|r|-1].pc == [Idle, WSleep];
  }

  /** And goes to sleep. */
  lemma WriterParks(limit: nat) returns (r: seq<State>, q: Queue)
    requires limit > 0
    ensures IsRun(r) && r[0].q.cfg == Config(limit, true, true) && r[|r|-1] == State(q, [Idle, WParked])
    ensures q == Queue(Config(limit, true, true), [Block(0, limit)], limit, false, true, false,
                       None, None, Some(1), None, None, Some(1), None, {}, {}, false)
  {
    r, q := WriterAsks(limit);
    r := Extend(r, 1, Any, To(q.(wl := Some(1)), WSleepIn));
    r := Extend(r, 1, Any, To(q.(wl := Some(1)), WSleepPark));
    q := q.(wp := Some(1));
    r := Extend(r, 1, Any, To(q, WParked));
    assert r[|r|-1].pc == [Idle, WParked];
  }

  /** A reader then drops it and goes to sleep as well, and nobody is left to wake either. */
  lemma WriterForgotten(limit: nat) returns (r: seq<State>)
    requires limit >= 2
    ensures IsRun(r) && r[0].q.cfg == Config(limit, true, true) && Quiet(r[|r|-1])
    ensures r[|r|-1].pc == [RParked, WParked] && r[|r|-1].q.len < limit / 2
  {
    var q;
    r, q := WriterParks(limit);
    var c := Choice(1, 1, Block(0, limit), None);
    r := Extend(r, 0, c.(op := 0), To(q, RWantR));
    q := q.(rown := Some(0));
    r := Extend(r, 0, c, To(q, RWantL));
    q := q.(l := Some(0));
    r := Extend(r, 0, c, To(q, RIn));
    q := q.(blocks := [], len := 0);
    r := Extend(r, 0, c, To(q, RIn));
    q := q.(l := None, starve := true);
    r := Extend(r, 0, c, To(q, RSleep));
    r := Extend(r, 0, c, To(q.(rl := Some(0)), RSleepIn));
    r := Extend(r, 0, c, To(q.(rl := Some(0)), RSleepPark));
    q := q.(rp := Some(0));
    r := Extend(r, 0, c, To(q, RParked));
    assert r[|r|-1].pc == [RParked, WParked];
  }

  /** Writers are never forgotten on just those queues where no read drops empty blocks. */
  lemma WritersSafeExactly(limit: nat, coalesce: bool, empties: bool)
    requires limit >= 2
    ensures NothingDropped(Config(limit, coalesce, empties)) <==>
      forall r: seq<State>, k: nat, p: nat ::
        IsRun(r) && r[0].q.cfg == Config(limit, coalesce, empties) && k < |r| && Quiet(r[k]) && p < |r[k].pc| && r[k].pc[p].WParked? ==>
          r[k].q.len >= limit / 2
  {
    var cfg := Config(limit, coalesce, empties);
    if NothingDropped(cfg) {
      forall r: seq<State>, k: nat, p: nat |
        IsRun(r) && r[0].q.cfg == cfg && k < |r| && Quiet(r[k]) && p < |r[k].pc| && r[k].pc[p].WParked?
        ensures r[k].q.len >= limit / 2
      {
        WriterNotForgotten(r, k, p);
        RunInv(r, k);
      }
    } else {
      var r := WriterForgotten(limit);
      assert r[|r|-1].pc[1].WParked?;
    }
  }
}
