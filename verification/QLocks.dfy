/**
 * Sleep locks and reader/writer locks (lock.c) as a step system: any number of processes, one
 * RWlock, every interleaving.  A spin lock is taken in one step and given up in another, and what
 * is done under it in between is part of the step that gives it up; osready and osblock are steps
 * of their own, a wakeup being kept until the process blocks.
 */
module QLocks {
  import opened Options
  /**
   * use is the process that has the spin lock, queue the waiting processes from head to tail.
   * asked and given only record the processes that ever queued, and those the lock was handed to.
   */
  datatype QLock = QLock(use: Option<nat>, locked: bool, queue: seq<nat>, asked: seq<nat>, given: seq<nat>)

  /** Where a process is.  Want: about to take a spin lock; In: it has it; Wait: in osblock; Ready: about to call osready. */
  datatype Pc =
    | Idle | Reading | Writing
    // canrlock, up to where it has x
    | CWantX | CInX
    // rlock
    | RWantX | RInX | RWaitX | RHasX | RInL | RCounted | RInK | RDone | RDropX | RDropInX | RReady(next: nat)
    // runlock
    | UWantL | UInL | UDropK | UDropInK | UReady(next: nat) | ULeave
    // wlock
    | WWantX | WInX | WWaitX | WHasX | WInK | WWaitK
    // wunlock
    | VDropK | VDropInK | VReadyK(next: nat) | VDropX | VDropInX | VReadyX(next: nat)

  /** Who has k: nobody, one writer, or the readers together. */
  datatype Holder = Nobody | Writer(p: nat) | Readers

  /** xo and ko only record whom x and k belong to; they decide nothing. */
  datatype State = State(x: QLock, k: QLock, l: Option<nat>, readers: int, pc: seq<Pc>, wake: set<nat>,
                         xo: Option<nat>, ko: Holder)

  function At(s: State, p: nat, pc: Pc): State
    requires p < |s.pc|
  {
    s.(pc := s.pc[p := pc])
  }

  /** The body of qlock: take the lock or join the queue. */
  function Join(q: QLock, p: nat): QLock
  {
    if !q.locked then q.(use := None, locked := true)
    else q.(use := None, queue := q.queue + [p], asked := q.asked + [p])
  }

  /** The body of qunlock: hand the lock to the first in the queue, or free it. */
  function Drop(q: QLock): QLock
  {
    if q.queue == [] then q.(use := None, locked := false)
    else q.(use := None, queue := q.queue[1..], given := q.given + [q.queue[0]])
  }

  function DropX(s: State, p: nat, after: Pc, reader: bool): State
    requires p < |s.pc|
  {
    if s.x.queue == [] then At(s.(x := Drop(s.x), xo := None), p, after)
    else
      var q := s.x.queue[0];
      At(s.(x := Drop(s.x), xo := Some(q)), p, if reader then RReady(q) else VReadyX(q))
  }

  function DropK(s: State, p: nat, after: Pc, writer: bool): State
    requires p < |s.pc|
  {
    if s.k.queue == [] then At(s.(k := Drop(s.k), ko := Nobody), p, after)
    else
      var q := s.k.queue[0];
      At(s.(k := Drop(s.k), ko := Writer(q)), p, if writer then VReadyK(q) else UReady(q))
  }

  /** Taking a spin lock, which waits while another process has it. */
  function TakeX(s: State, p: nat, next: Pc): Option<State>
    requires p < |s.pc|
  {
    if s.x.use.None? then Some(At(s.(x := s.x.(use := Some(p))), p, next)) else None
  }

  function TakeK(s: State, p: nat, next: Pc): Option<State>
    requires p < |s.pc|
  {
    if s.k.use.None? then Some(At(s.(k := s.k.(use := Some(p))), p, next)) else None
  }

  function TakeL(s: State, p: nat, next: Pc): Option<State>
    requires p < |s.pc|
  {
    if s.l.None? then Some(At(s.(l := Some(p)), p, next)) else None
  }

  /** qlock of x with its spin lock in hand. */
  function JoinX(s: State, p: nat, got: Pc, wait: Pc): State
    requires p < |s.pc|
  {
    if s.x.locked then At(s.(x := Join(s.x, p)), p, wait)
    else At(s.(x := Join(s.x, p), xo := Some(p)), p, got)
  }

  /** osblock, which waits for a wakeup. */
  function Block(s: State, p: nat, next: Pc): Option<State>
    requires p < |s.pc|
  {
    if p in s.wake then Some(At(s.(wake := s.wake - {p}), p, next)) else None
  }

  function Ready(s: State, p: nat, q: nat, next: Pc): State
    requires p < |s.pc|
  {
    At(s.(wake := s.wake + {q}), p, next)
  }

  /** canrlock as far as taking x. */
  function CanRlock(s: State, p: nat): Option<State>
    requires p < |s.pc|
  {
    match s.pc[p]
    case CWantX => if s.x.use.None? then TakeX(s, p, CInX) else Some(At(s, p, Idle))
    case CInX =>
      if s.x.locked then Some(At(s.(x := s.x.(use := None)), p, Idle))
      else Some(At(s.(x := s.x.(use := None, locked := true), xo := Some(p)), p, RHasX))
    case _ => None
  }

  function Rlock(s: State, p: nat): Option<State>
    requires p < |s.pc|
  {
    match s.pc[p]
    case RWantX => TakeX(s, p, RInX)
    case RInX => Some(JoinX(s, p, RHasX, RWaitX))
    case RWaitX => Block(s, p, RHasX)
    case RHasX => TakeL(s, p, RInL)
    case RInL => Some(At(s.(readers := s.readers + 1), p, RCounted))
    case RCounted => if s.k.use.None? then TakeK(s, p, RInK) else Some(At(s, p, RDone))
    case RInK =>
      if s.k.locked then Some(At(s.(k := s.k.(use := None)), p, RDone))
      else Some(At(s.(k := s.k.(use := None, locked := true), ko := Readers), p, RDone))
    case RDone => Some(At(s.(l := None), p, RDropX))
    case RDropX => TakeX(s, p, RDropInX)
    case RDropInX => Some(DropX(s, p, Reading, true))
    case RReady(q) => Some(Ready(s, p, q, Reading))
    case _ => None
  }

  function Runlock(s: State, p: nat): Option<State>
    requires p < |s.pc|
  {
    match s.pc[p]
    case UWantL => TakeL(s, p, UInL)
    case UInL => Some(At(s.(readers := s.readers - 1), p, if s.readers == 1 then UDropK else ULeave))
    case UDropK => TakeK(s, p, UDropInK)
    case UDropInK => Some(DropK(s, p, ULeave, false))
    case UReady(q) => Some(Ready(s, p, q, ULeave))
    case ULeave => Some(At(s.(l := None), p, Idle))
    case _ => None
  }

  function Wlock(s: State, p: nat): Option<State>
    requires p < |s.pc|
  {
    match s.pc[p]
    case WWantX => TakeX(s, p, WInX)
    case WInX => Some(JoinX(s, p, WHasX, WWaitX))
    case WWaitX => Block(s, p, WHasX)
    case WHasX => TakeK(s, p, WInK)
    case WInK =>
      if s.k.locked then Some(At(s.(k := Join(s.k, p)), p, WWaitK))
      else Some(At(s.(k := Join(s.k, p), ko := Writer(p)), p, Writing))
    case WWaitK => Block(s, p, Writing)
    case _ => None
  }

  function Wunlock(s: State, p: nat): Option<State>
    requires p < |s.pc|
  {
    match s.pc[p]
    case VDropK => TakeK(s, p, VDropInK)
    case VDropInK => Some(DropK(s, p, VDropX, true))
    case VReadyK(q) => Some(Ready(s, p, q, VDropX))
    case VDropX => TakeX(s, p, VDropInX)
    case VDropInX => Some(DropX(s, p, Idle, false))
    case VReadyX(q) => Some(Ready(s, p, q, Idle))
    case _ => None
  }

  /** The step process p can take, and the state after it; choice picks the call an idle process makes. */
  function Step(s: State, p: nat, choice: nat): Option<State>
    requires p < |s.pc|
  {
    var pc := s.pc[p];
    if pc.Idle? then Some(At(s, p, if choice == 0 then RWantX else if choice == 1 then CWantX else WWantX))
    else if pc.Reading? then Some(At(s, p, UWantL))
    else if pc.Writing? then Some(At(s, p, VDropK))
    else if CanRlock(s, p).Some? then CanRlock(s, p)
    else if Rlock(s, p).Some? then Rlock(s, p)
    else if Runlock(s, p).Some? then Runlock(s, p)
    else if Wlock(s, p).Some? then Wlock(s, p)
    else Wunlock(s, p)
  }

  function Free(): QLock
  {
    QLock(None, false, [], [], [])
  }

  predicate Init(s: State)
  {
    && s.x == Free() && s.k == Free() && s.l == None && s.readers == 0 && s.wake == {} && s.xo == None && s.ko == Nobody
    && forall p :: 0 <= p < |s.pc| ==> s.pc[p] == Idle
  }

  // What a process has and what it waits for.

  /**
   * inX, inK, inL: it has that spin lock; hasX, hasK: the sleep lock is its own; waitsX, waitsK: it
   * is in osblock for it; counted: it is one of the readers; readies: whom it is about to wake.
   */
  datatype Role = Role(inX: bool, inK: bool, inL: bool, hasX: bool, hasK: bool, waitsX: bool, waitsK: bool,
                       counted: bool, readies: Option<nat>)

  const NoRole: Role := Role(false, false, false, false, false, false, false, false, None)

  function RoleOf(pc: Pc): Role
  {
    match pc
    case Idle => NoRole
    case Reading => NoRole.(counted := true)
    case Writing => NoRole.(hasX := true, hasK := true)
    case CWantX => NoRole
    case CInX => NoRole.(inX := true)
    case RWantX => NoRole
    case RInX => NoRole.(inX := true)
    case RWaitX => NoRole.(waitsX := true)
    case RHasX => NoRole.(hasX := true)
    case RInL => NoRole.(hasX := true, inL := true)
    case RCounted => NoRole.(hasX := true, inL := true, counted := true)
    case RInK => NoRole.(hasX := true, inL := true, counted := true, inK := true)
    case RDone => NoRole.(hasX := true, inL := true, counted := true)
    case RDropX => NoRole.(hasX := true, counted := true)
    case RDropInX => NoRole.(hasX := true, counted := true, inX := true)
    case RReady(q) => NoRole.(counted := true, readies := Some(q))
    case UWantL => NoRole.(counted := true)
    case UInL => NoRole.(counted := true, inL := true)
    case UDropK => NoRole.(inL := true)
    case UDropInK => NoRole.(inL := true, inK := true)
    case UReady(q) => NoRole.(inL := true, readies := Some(q))
    case ULeave => NoRole.(inL := true)
    case WWantX => NoRole
    case WInX => NoRole.(inX := true)
    case WWaitX => NoRole.(waitsX := true)
    case WHasX => NoRole.(hasX := true)
    case WInK => NoRole.(hasX := true, inK := true)
    case WWaitK => NoRole.(hasX := true, waitsK := true)
    case VDropK => NoRole.(hasX := true, hasK := true)
    case VDropInK => NoRole.(hasX := true, hasK := true, inK := true)
    case VReadyK(q) => NoRole.(hasX := true, readies := Some(q))
    case VDropX => NoRole.(hasX := true)
    case VDropInX => NoRole.(hasX := true, inX := true)
    case VReadyX(q) => NoRole.(readies := Some(q))
  }

  /** A process that was handed a lock and has yet to leave osblock. */
  predicate HandedX(s: State, p: nat)
    requires p < |s.pc|
  {
    RoleOf(s.pc[p]).waitsX && p !in s.x.queue
  }

  predicate HandedK(s: State, p: nat)
    requires p < |s.pc|
  {
    RoleOf(s.pc[p]).waitsK && p !in s.k.queue
  }

  function Counted(s: State): set<nat>
  {
    set p: nat | p < |s.pc| && RoleOf(s.pc[p]).counted
  }

  /** The process that has l is the first reader and has yet to take k for the readers. */
  predicate FirstPending(s: State)
  {
    s.readers == 1 && s.l.Some? && s.l.value < |s.pc| && (s.pc[s.l.value].RCounted? || s.pc[s.l.value].RInK?)
  }

  /** The process that has l was the last reader and has yet to give k up. */
  predicate Dropping(s: State)
  {
    s.l.Some? && s.l.value < |s.pc| && (s.pc[s.l.value].UDropK? || s.pc[s.l.value].UDropInK?)
  }

  // The invariant, clause by clause.

  ghost predicate SpinLocks(s: State)
  {
    && (forall p :: 0 <= p < |s.pc| ==> (RoleOf(s.pc[p]).inX <==> s.x.use == Some(p)))
    && (forall p :: 0 <= p < |s.pc| ==> (RoleOf(s.pc[p]).inK <==> s.k.use == Some(p)))
    && (forall p :: 0 <= p < |s.pc| ==> (RoleOf(s.pc[p]).inL <==> s.l == Some(p)))
    && (s.x.use.Some? ==> s.x.use.value < |s.pc|) && (s.k.use.Some? ==> s.k.use.value < |s.pc|) && (s.l.Some? ==> s.l.value < |s.pc|)
  }

  predicate Distinct(q: seq<nat>)
  {
    forall i, j :: 0 <= i < j < |q| ==> q[i] != q[j]
  }

  ghost predicate QueueX(s: State)
  {
    && Distinct(s.x.queue) && (forall p :: p in s.x.queue ==> p < |s.pc| && RoleOf(s.pc[p]).waitsX)
    && (s.x.queue != [] ==> s.x.locked) && s.x.given + s.x.queue == s.x.asked
  }

  ghost predicate QueueK(s: State)
  {
    && Distinct(s.k.queue) && (forall p :: p in s.k.queue ==> p < |s.pc| && RoleOf(s.pc[p]).waitsK)
    && (s.k.queue != [] ==> s.k.locked) && s.k.given + s.k.queue == s.k.asked
  }

  ghost predicate OwnerX(s: State)
  {
    && (forall p :: 0 <= p < |s.pc| ==> (RoleOf(s.pc[p]).hasX || HandedX(s, p) <==> s.xo == Some(p)))
    && (s.xo.Some? ==> s.xo.value < |s.pc|) && (s.x.locked <==> s.xo.Some?)
  }

  ghost predicate OwnerK(s: State)
  {
    && (forall p :: 0 <= p < |s.pc| ==> (RoleOf(s.pc[p]).hasK || HandedK(s, p) <==> s.ko == Writer(p)))
    && (s.ko.Writer? ==> s.ko.p < |s.pc|) && (s.k.locked <==> !s.ko.Nobody?)
  }

  ghost predicate ReaderCount(s: State)
  {
    s.readers == |Counted(s)|
  }

  /** The readers have k while there are any, but for the first on its way in and the last on its way out. */
  ghost predicate ReadersHold(s: State)
  {
    && (s.ko.Readers? <==> (s.readers > 0 && !FirstPending(s)) || Dropping(s))
    && (Dropping(s) ==> s.readers == 0)
  }

  /** Every wakeup kept or on its way is for a process that was handed a lock. */
  ghost predicate Wakeups(s: State)
  {
    && (forall p :: p in s.wake ==> p < |s.pc| && (HandedX(s, p) || HandedK(s, p)))
    && (forall q :: 0 <= q < |s.pc| && RoleOf(s.pc[q]).readies.Some? ==>
        var p := RoleOf(s.pc[q]).readies.value;
        p < |s.pc| && p !in s.wake && (HandedX(s, p) || HandedK(s, p)))
    && (forall q, o :: 0 <= q < |s.pc| && 0 <= o < |s.pc| && RoleOf(s.pc[q]).readies.Some? && RoleOf(s.pc[q]).readies == RoleOf(s.pc[o]).readies ==> q == o)
  }

  /** Every process that was handed a lock has its wakeup, kept or on its way. */
  ghost predicate NoneForgotten(s: State)
  {
    forall p :: 0 <= p < |s.pc| && (HandedX(s, p) || HandedK(s, p)) && p !in s.wake ==>
      exists q :: 0 <= q < |s.pc| && RoleOf(s.pc[q]).readies == Some(p)
  }

  ghost predicate Inv(s: State)
  {
    && SpinLocks(s) && QueueX(s) && QueueK(s) && OwnerX(s) && OwnerK(s) && ReaderCount(s) && ReadersHold(s)
    && Wakeups(s) && NoneForgotten(s)
  }

  lemma InitInv(s: State)
    requires Init(s)
    ensures Inv(s)
  {
    assert Counted(s) == {};
  }

  // What a step does, in terms of the roles of the process that takes it.

  /** A spin lock follows the role. */
  predicate SpinMove(before: Option<nat>, after: Option<nat>, was: bool, now: bool, p: nat)
  {
    && (now && !was ==> before.None?)
    && after == (if now then Some(p) else if was then None else before)
  }

  predicate SameLock(q: QLock, r: QLock)
  {
    r == q.(use := r.use)
  }

  predicate XMove(s: State, t: State, p: nat, r: Role, r': Role)
  {
    if t.xo == s.xo && SameLock(s.x, t.x) then
      || (r.hasX == r'.hasX && r.waitsX == r'.waitsX)
      || (r.waitsX && !r.hasX && !r'.waitsX && r'.hasX && p in s.wake)
    else if !s.x.locked then
      SameLock(s.x.(locked := true), t.x) && t.xo == Some(p) && !r.hasX && !r.waitsX && r'.hasX && !r'.waitsX
    else if !r.hasX then
      && !r.waitsX && !r'.hasX && r'.waitsX && t.xo == s.xo
      && SameLock(s.x.(queue := s.x.queue + [p], asked := s.x.asked + [p]), t.x)
    else
      && !r.waitsX && !r'.hasX && !r'.waitsX
      && if s.x.queue == [] then SameLock(s.x.(locked := false), t.x) && t.xo == None
         else
           && SameLock(s.x.(queue := s.x.queue[1..], given := s.x.given + [s.x.queue[0]]), t.x)
           && t.xo == Some(s.x.queue[0])
  }

  /** The same for k, which the last reader gives up as well. */
  predicate KMove(s: State, t: State, p: nat, r: Role, r': Role)
    requires p < |s.pc|
  {
    if t.ko == s.ko && SameLock(s.k, t.k) then
      || (r.hasK == r'.hasK && r.waitsK == r'.waitsK)
      || (r.waitsK && !r.hasK && !r'.waitsK && r'.hasK && p in s.wake)
    else if !s.k.locked then
      && SameLock(s.k.(locked := true), t.k) && !r.hasK && !r.waitsK && !r'.waitsK
      && (if r'.hasK then t.ko == Writer(p) else t.ko == Readers)
    else if !r.hasK && r'.waitsK then
      && !r.waitsK && !r'.hasK && t.ko == s.ko
      && SameLock(s.k.(queue := s.k.queue + [p], asked := s.k.asked + [p]), t.k)
    else
      && !r.waitsK && !r'.hasK && !r'.waitsK && (r.hasK || s.pc[p].UDropInK?)
      && if s.k.queue == [] then SameLock(s.k.(locked := false), t.k) && t.ko == Nobody
         else
           && SameLock(s.k.(queue := s.k.queue[1..], given := s.k.given + [s.k.queue[0]]), t.k)
           && t.ko == Writer(s.k.queue[0])
  }

  /** Wakeups are kept until taken, and promised only when a lock is handed over. */
  predicate WakeMove(s: State, t: State, p: nat, r: Role, r': Role)
  {
    if r.readies.Some? then
      t.wake == s.wake + {r.readies.value} && r'.readies.None? && t.x.given == s.x.given && t.k.given == s.k.given
    else if (r.waitsX && !r'.waitsX) || (r.waitsK && !r'.waitsK) then
      && p in s.wake && t.wake == s.wake - {p} && r'.readies.None? && !r'.waitsX && !r'.waitsK
      && t.x.given == s.x.given && t.k.given == s.k.given
    else
      && t.wake == s.wake
      && (r'.readies.Some? <==> t.x.given != s.x.given || t.k.given != s.k.given)
      && (t.x.given != s.x.given ==> s.x.queue != [] && r'.readies == Some(s.x.queue[0]))
      && (t.k.given != s.k.given ==> s.k.queue != [] && r'.readies == Some(s.k.queue[0]))
  }

  predicate Moves(s: State, t: State, p: nat)
    requires p < |s.pc|
  {
    && |t.pc| == |s.pc| && t.pc == s.pc[p := t.pc[p]]
    && var r, r' := RoleOf(s.pc[p]), RoleOf(t.pc[p]);
    && SpinMove(s.x.use, t.x.use, r.inX, r'.inX, p)
    && SpinMove(s.k.use, t.k.use, r.inK, r'.inK, p)
    && SpinMove(s.l, t.l, r.inL, r'.inL, p)
    && XMove(s, t, p, r, r') && KMove(s, t, p, r, r') && WakeMove(s, t, p, r, r')
    && t.readers == s.readers + (if r'.counted then 1 else 0) - (if r.counted then 1 else 0)
  }

  lemma StepMoves(s: State, p: nat, choice: nat)
    requires p < |s.pc| && Step(s, p, choice).Some? && Local(s, p)
    ensures Moves(s, Step(s, p, choice).value, p)
  {
    hide CanRlock, Rlock, Runlock, Wlock, Wunlock, Moves, RoleOf;
    if s.pc[p].Idle? || s.pc[p].Reading? || s.pc[p].Writing? { IdleMoves(s, p, choice); }
    if CanRlock(s, p).Some? { CanRlockMoves(s, p); }
    if Rlock(s, p).Some? { RlockMoves(s, p); }
    if Runlock(s, p).Some? { RunlockMoves(s, p); }
    if Wlock(s, p).Some? { WlockMoves(s, p); }
    if Wunlock(s, p).Some? { WunlockMoves(s, p); }
  }

  lemma IdleMoves(s: State, p: nat, choice: nat)
    requires p < |s.pc| && (s.pc[p].Idle? || s.pc[p].Reading? || s.pc[p].Writing?)
    ensures Moves(s, Step(s, p, choice).value, p)
  {
    hide Moves, RoleOf;
    match s.pc[p]
    case Idle => if choice == 0 { MovesOnly(s, p, RWantX); } else if choice == 1 { MovesOnly(s, p, CWantX); } else { MovesOnly(s, p, WWantX); }
    case Reading => MovesOnly(s, p, UWantL);
    case Writing => MovesOnly(s, p, VDropK);
  }

  /** A step between places of the same role. */
  lemma MovesOnly(s: State, p: nat, next: Pc)
    requires p < |s.pc|
    requires var pc := s.pc[p];
      (pc.Idle? && (next.RWantX? || next.CWantX? || next.WWantX?)) || (pc.Reading? && next.UWantL?) || (pc.Writing? && next.VDropK?)
    ensures Moves(s, At(s, p, next), p)
  {
    assert RoleOf(s.pc[p]) == RoleOf(next) && RoleOf(next).readies.None?;
    hide RoleOf;
  }

  lemma CanRlockMoves(s: State, p: nat)
    requires p < |s.pc| && Local(s, p) && CanRlock(s, p).Some?
    ensures Moves(s, CanRlock(s, p).value, p)
  {
  }

  lemma RlockMoves(s: State, p: nat)
    requires p < |s.pc| && Local(s, p) && Rlock(s, p).Some?
    ensures Moves(s, Rlock(s, p).value, p)
  {
    hide Moves, RoleOf, Local;
    var pc := s.pc[p];
    if pc.RWantX? || pc.RInX? { RlockJoinMoves(s, p); }
    if pc.RWaitX? || pc.RHasX? { RlockTakeMoves(s, p); }
    if pc.RInL? || pc.RCounted? { RlockReadMoves(s, p); }
    if pc.RInK? || pc.RDone? { RlockCountMoves(s, p); }
    if pc.RDropX? || pc.RDropInX? || pc.RReady? { RlockDropMoves(s, p); }
  }

  lemma RlockJoinMoves(s: State, p: nat)
    requires p < |s.pc| && Local(s, p) && Rlock(s, p).Some?
    requires var pc := s.pc[p]; pc.RWantX? || pc.RInX?
    ensures Moves(s, Rlock(s, p).value, p)
  {
  }

  lemma RlockTakeMoves(s: State, p: nat)
    requires p < |s.pc| && Local(s, p) && Rlock(s, p).Some?
    requires var pc := s.pc[p]; pc.RWaitX? || pc.RHasX?
    ensures Moves(s, Rlock(s, p).value, p)
  {
  }

  lemma RlockReadMoves(s: State, p: nat)
    requires p < |s.pc| && Local(s, p) && Rlock(s, p).Some?
    requires var pc := s.pc[p]; pc.RInL? || pc.RCounted?
    ensures Moves(s, Rlock(s, p).value, p)
  {
  }

  lemma RlockCountMoves(s: State, p: nat)
    requires p < |s.pc| && Local(s, p) && Rlock(s, p).Some?
    requires var pc := s.pc[p]; pc.RInK? || pc.RDone?
    ensures Moves(s, Rlock(s, p).value, p)
  {
  }

  lemma RlockDropMoves(s: State, p: nat)
    requires p < |s.pc| && Local(s, p) && Rlock(s, p).Some?
    requires var pc := s.pc[p]; pc.RDropX? || pc.RDropInX? || pc.RReady?
    ensures Moves(s, Rlock(s, p).value, p)
  {
  }

  lemma RunlockMoves(s: State, p: nat)
    requires p < |s.pc| && Local(s, p) && Runlock(s, p).Some?
    ensures Moves(s, Runlock(s, p).value, p)
  {
    hide Moves, RoleOf, Local;
    var pc := s.pc[p];
    if pc.UWantL? || pc.UInL? || pc.ULeave? { RunlockCountMoves(s, p); }
    if pc.UDropK? { RunlockTakeMoves(s, p); }
    if pc.UDropInK? { RunlockDropMoves(s, p); }
    if pc.UReady? { RunlockReadyMoves(s, p); }
  }

  lemma RunlockCountMoves(s: State, p: nat)
    requires p < |s.pc| && Local(s, p) && Runlock(s, p).Some?
    requires var pc := s.pc[p]; pc.UWantL? || pc.UInL? || pc.ULeave?
    ensures Moves(s, Runlock(s, p).value, p)
  {
  }

  lemma RunlockTakeMoves(s: State, p: nat)
    requires p < |s.pc| && Local(s, p) && Runlock(s, p).Some?
    requires var pc := s.pc[p]; pc.UDropK?
    ensures Moves(s, Runlock(s, p).value, p)
  {
  }

  lemma RunlockDropMoves(s: State, p: nat)
    requires p < |s.pc| && Local(s, p) && Runlock(s, p).Some?
    requires var pc := s.pc[p]; pc.UDropInK?
    ensures Moves(s, Runlock(s, p).value, p)
  {
  }

  lemma RunlockReadyMoves(s: State, p: nat)
    requires p < |s.pc| && Local(s, p) && Runlock(s, p).Some?
    requires var pc := s.pc[p]; pc.UReady?
    ensures Moves(s, Runlock(s, p).value, p)
  {
  }

  lemma WlockMoves(s: State, p: nat)
    requires p < |s.pc| && Local(s, p) && Wlock(s, p).Some?
    ensures Moves(s, Wlock(s, p).value, p)
  {
    hide Moves, RoleOf, Local;
    var pc := s.pc[p];
    if pc.WWantX? { WlockWantMoves(s, p); }
    if pc.WInX? { WlockJoinMoves(s, p); }
    if pc.WWaitX? || pc.WHasX? { WlockTakeMoves(s, p); }
    if pc.WInK? || pc.WWaitK? { WlockWriteMoves(s, p); }
  }

  lemma WlockWantMoves(s: State, p: nat)
    requires p < |s.pc| && Local(s, p) && Wlock(s, p).Some?
    requires var pc := s.pc[p]; pc.WWantX?
    ensures Moves(s, Wlock(s, p).value, p)
  {
  }

  lemma WlockJoinMoves(s: State, p: nat)
    requires p < |s.pc| && Local(s, p) && Wlock(s, p).Some?
    requires var pc := s.pc[p]; pc.WInX?
    ensures Moves(s, Wlock(s, p).value, p)
  {
  }

  lemma WlockTakeMoves(s: State, p: nat)
    requires p < |s.pc| && Local(s, p) && Wlock(s, p).Some?
    requires var pc := s.pc[p]; pc.WWaitX? || pc.WHasX?
    ensures Moves(s, Wlock(s, p).value, p)
  {
  }

  lemma WlockWriteMoves(s: State, p: nat)
    requires p < |s.pc| && Local(s, p) && Wlock(s, p).Some?
    requires var pc := s.pc[p]; pc.WInK? || pc.WWaitK?
    ensures Moves(s, Wlock(s, p).value, p)
  {
  }

  lemma WunlockMoves(s: State, p: nat)
    requires p < |s.pc| && Local(s, p) && Wunlock(s, p).Some?
    ensures Moves(s, Wunlock(s, p).value, p)
  {
    hide Moves, RoleOf, Local;
    var pc := s.pc[p];
    if pc.VDropK? { WunlockTakeKMoves(s, p); }
    if pc.VDropInK? { WunlockDropKMoves(s, p); }
    if pc.VDropX? { WunlockTakeXMoves(s, p); }
    if pc.VDropInX? { WunlockDropXMoves(s, p); }
    if pc.VReadyK? || pc.VReadyX? { WunlockReadyMoves(s, p); }
  }

  lemma WunlockTakeKMoves(s: State, p: nat)
    requires p < |s.pc| && Local(s, p) && Wunlock(s, p).Some?
    requires var pc := s.pc[p]; pc.VDropK?
    ensures Moves(s, Wunlock(s, p).value, p)
  {
  }

  lemma WunlockDropKMoves(s: State, p: nat)
    requires p < |s.pc| && Local(s, p) && Wunlock(s, p).Some?
    requires var pc := s.pc[p]; pc.VDropInK?
    ensures Moves(s, Wunlock(s, p).value, p)
  {
  }

  lemma WunlockTakeXMoves(s: State, p: nat)
    requires p < |s.pc| && Local(s, p) && Wunlock(s, p).Some?
    requires var pc := s.pc[p]; pc.VDropX?
    ensures Moves(s, Wunlock(s, p).value, p)
  {
  }

  lemma WunlockDropXMoves(s: State, p: nat)
    requires p < |s.pc| && Local(s, p) && Wunlock(s, p).Some?
    requires var pc := s.pc[p]; pc.VDropInX?
    ensures Moves(s, Wunlock(s, p).value, p)
  {
  }

  lemma WunlockReadyMoves(s: State, p: nat)
    requires p < |s.pc| && Local(s, p) && Wunlock(s, p).Some?
    requires var pc := s.pc[p]; pc.VReadyK? || pc.VReadyX?
    ensures Moves(s, Wunlock(s, p).value, p)
  {
  }

  /** What the invariant says of the process that steps. */
  predicate Local(s: State, p: nat)
    requires p < |s.pc|
  {
    var r := RoleOf(s.pc[p]);
    && (r.inX <==> s.x.use == Some(p)) && (r.inK <==> s.k.use == Some(p)) && (r.inL <==> s.l == Some(p))
    && (r.hasX ==> s.x.locked) && (r.hasK ==> s.k.locked) && (s.pc[p].UDropInK? ==> s.k.locked && s.ko == Readers)
    && (r.waitsX && p in s.wake ==> HandedX(s, p)) && (r.waitsK && p in s.wake ==> HandedK(s, p))
  }

  lemma InvLocal(s: State, p: nat)
    requires Inv(s) && p < |s.pc|
    ensures Local(s, p)
  {
  }

  lemma MoveSpinLocks(s: State, t: State, p: nat)
    requires SpinLocks(s) && p < |s.pc| && Moves(s, t, p)
    ensures SpinLocks(t)
  {
    hide RoleOf, XMove, KMove, WakeMove;
  }

  /** A queue of distinct processes that one more joins, or that the first leaves. */
  lemma QueueFacts(q: seq<nat>, given: seq<nat>, asked: seq<nat>, p: nat)
    requires Distinct(q) && given + q == asked
    ensures p !in q ==> Distinct(q + [p]) && given + (q + [p]) == asked + [p]
    ensures forall i :: i in q + [p] <==> i in q || i == p
    ensures q != [] ==> q[0] in q && given + [q[0]] != given
    ensures q != [] ==> Distinct(q[1..]) && given + [q[0]] + q[1..] == asked && forall i :: i in q[1..] <==> i in q && i != q[0]
  {
    if q != [] {
      assert q == [q[0]] + q[1..];
    }
  }

  lemma MoveQueueX(s: State, t: State, p: nat)
    requires QueueX(s) && p < |s.pc| && Local(s, p) && Moves(s, t, p)
    ensures QueueX(t)
  {
    hide RoleOf, SpinMove, KMove, WakeMove, Distinct;
    QueueFacts(s.x.queue, s.x.given, s.x.asked, p);
  }

  lemma MoveQueueK(s: State, t: State, p: nat)
    requires QueueK(s) && p < |s.pc| && Local(s, p) && Moves(s, t, p)
    ensures QueueK(t)
  {
    hide RoleOf, SpinMove, XMove, WakeMove, Distinct;
    QueueFacts(s.k.queue, s.k.given, s.k.asked, p);
  }

  lemma MoveOwnerX(s: State, t: State, p: nat)
    requires OwnerX(s) && QueueX(s) && p < |s.pc| && Local(s, p) && Moves(s, t, p)
    ensures OwnerX(t)
  {
    hide RoleOf, SpinMove, KMove, WakeMove, Distinct;
    QueueFacts(s.x.queue, s.x.given, s.x.asked, p);
    forall q | 0 <= q < |t.pc| ensures RoleOf(t.pc[q]).hasX || HandedX(t, q) <==> t.xo == Some(q) {
      assert q != p ==> t.pc[q] == s.pc[q];
      assert RoleOf(s.pc[q]).hasX || HandedX(s, q) <==> s.xo == Some(q);
      if q != p {
        assert t.xo == Some(q) ==> RoleOf(t.pc[q]).hasX || HandedX(t, q);
      }
    }
  }

  lemma MoveOwnerK(s: State, t: State, p: nat)
    requires OwnerK(s) && QueueK(s) && p < |s.pc| && Local(s, p) && Moves(s, t, p)
    ensures OwnerK(t)
  {
    hide RoleOf, SpinMove, XMove, WakeMove, Distinct;
    QueueFacts(s.k.queue, s.k.given, s.k.asked, p);
    forall q | 0 <= q < |t.pc| ensures RoleOf(t.pc[q]).hasK || HandedK(t, q) <==> t.ko == Writer(q) {
      assert q != p ==> t.pc[q] == s.pc[q];
      assert RoleOf(s.pc[q]).hasK || HandedK(s, q) <==> s.ko == Writer(q);
      if q != p {
        assert t.ko == Writer(q) ==> RoleOf(t.pc[q]).hasK || HandedK(t, q);
      }
    }
  }

  lemma OneWait(pc: Pc)
    ensures !(RoleOf(pc).waitsX && RoleOf(pc).waitsK)
    ensures RoleOf(pc).waitsX || RoleOf(pc).waitsK ==> RoleOf(pc).readies.None?
  {
  }

  lemma MoveWakeups(s: State, t: State, p: nat)
    requires Wakeups(s) && QueueX(s) && QueueK(s) && OwnerX(s) && OwnerK(s) && p < |s.pc| && Local(s, p) && Moves(s, t, p)
    ensures Wakeups(t)
  {
    hide RoleOf, SpinMove, Distinct;
    QueueFacts(s.x.queue, s.x.given, s.x.asked, p);
    QueueFacts(s.k.queue, s.k.given, s.k.asked, p);
    forall q | q in t.wake ensures q < |t.pc| && (HandedX(t, q) || HandedK(t, q)) {
      OneWait(s.pc[p]);
      assert q != p ==> t.pc[q] == s.pc[q];
    }
    forall o | 0 <= o < |t.pc| && RoleOf(t.pc[o]).readies.Some?
      ensures var q := RoleOf(t.pc[o]).readies.value; q < |t.pc| && q !in t.wake && (HandedX(t, q) || HandedK(t, q)) {
      var q := RoleOf(t.pc[o]).readies.value;
      if o != p {
        assert t.pc[o] == s.pc[o];
        assert q != p ==> t.pc[q] == s.pc[q];
      } else {
        NewlyHanded(s, t, p, q);
      }
    }
    forall o, o' | 0 <= o < |t.pc| && 0 <= o' < |t.pc| && RoleOf(t.pc[o]).readies.Some? && RoleOf(t.pc[o]).readies == RoleOf(t.pc[o']).readies
      ensures o == o' {
      if RoleOf(t.pc[p]).readies.Some? {
        NewlyHanded(s, t, p, RoleOf(t.pc[p]).readies.value);
      }
      assert o != p ==> t.pc[o] == s.pc[o];
      assert o' != p ==> t.pc[o'] == s.pc[o'];
    }
  }

  /** The process that a step promises a wakeup had none coming. */
  lemma NewlyHanded(s: State, t: State, p: nat, q: nat)
    requires Wakeups(s) && QueueX(s) && QueueK(s) && p < |s.pc| && Local(s, p) && Moves(s, t, p)
    requires RoleOf(t.pc[p]).readies == Some(q)
    ensures q < |t.pc| && q !in t.wake && (HandedX(t, q) || HandedK(t, q))
    ensures q != p && !HandedX(s, q) && !HandedK(s, q)
  {
    hide RoleOf, SpinMove, Distinct;
    QueueFacts(s.x.queue, s.x.given, s.x.asked, p);
    QueueFacts(s.k.queue, s.k.given, s.k.asked, p);
    assert q in s.x.queue || q in s.k.queue;
    OneWait(s.pc[q]);
    assert q != p;
    assert t.pc[q] == s.pc[q];
  }

  lemma MoveNoneForgotten(s: State, t: State, p: nat)
    requires NoneForgotten(s) && QueueX(s) && QueueK(s) && p < |s.pc| && Local(s, p) && Moves(s, t, p)
    ensures NoneForgotten(t)
  {
    hide RoleOf, SpinMove, Distinct;
    QueueFacts(s.x.queue, s.x.given, s.x.asked, p);
    QueueFacts(s.k.queue, s.k.given, s.k.asked, p);
    forall q | 0 <= q < |t.pc| && (HandedX(t, q) || HandedK(t, q)) && q !in t.wake
      ensures exists o :: 0 <= o < |t.pc| && RoleOf(t.pc[o]).readies == Some(q) {
      assert q != p ==> t.pc[q] == s.pc[q];
      if HandedX(s, q) || HandedK(s, q) {
        var o :| 0 <= o < |s.pc| && RoleOf(s.pc[o]).readies == Some(q);
        assert t.pc[o] == s.pc[o];
      } else {
        assert RoleOf(t.pc[p]).readies == Some(q);
      }
    }
  }

  lemma MoveReaderCount(s: State, t: State, p: nat)
    requires ReaderCount(s) && p < |s.pc| && Moves(s, t, p)
    ensures ReaderCount(t)
  {
    hide RoleOf, SpinMove, XMove, KMove, WakeMove;
    var was, now := RoleOf(s.pc[p]).counted, RoleOf(t.pc[p]).counted;
    assert Counted(t) == if now then Counted(s) + {p} else Counted(s) - {p};
    assert p in Counted(s) <==> was;
  }

  lemma CountedPositive(s: State, p: nat)
    requires ReaderCount(s) && p < |s.pc| && RoleOf(s.pc[p]).counted
    ensures s.readers > 0
  {
    assert p in Counted(s);
  }

  /** The processes that may be at k: a writer has x, and the others have l. */
  lemma AtK(pc: Pc)
    ensures RoleOf(pc).inK || RoleOf(pc).hasK || RoleOf(pc).waitsK ==> RoleOf(pc).hasX || RoleOf(pc).inL
    ensures RoleOf(pc).hasK || RoleOf(pc).waitsK ==> RoleOf(pc).hasX && !RoleOf(pc).inL
  {
  }

  /** canqlock of k by the first reader never fails: nobody is at its spin lock, and it is free. */
  lemma FirstReaderTakesK(s: State, p: nat)
    requires Inv(s) && p < |s.pc| && s.readers == 1 && (s.pc[p].RCounted? || s.pc[p].RInK?)
    ensures s.pc[p].RCounted? ==> s.k.use.None?
    ensures !s.k.locked
  {
    assert RoleOf(s.pc[p]).hasX && RoleOf(s.pc[p]).inL && !RoleOf(s.pc[p]).hasK && !RoleOf(s.pc[p]).waitsK;
    assert s.pc[p].RCounted? ==> !RoleOf(s.pc[p]).inK;
    hide RoleOf;
    assert s.l == Some(p) && s.xo == Some(p);
    if s.k.use.Some? {
      AtK(s.pc[s.k.use.value]);
    }
    if s.ko.Writer? {
      AtK(s.pc[s.ko.p]);
    }
  }

  /** What the invariant says of the readers to a process about to step. */
  ghost predicate ReadersLocal(s: State, p: nat)
    requires p < |s.pc|
  {
    && Local(s, p) && ReadersHold(s)
    && (RoleOf(s.pc[p]).counted ==> s.readers > 0)
    && (s.readers == 1 && s.pc[p].RCounted? ==> s.k.use.None?)
    && (s.readers == 1 && s.pc[p].RInK? ==> !s.k.locked)
    && (s.k.locked <==> !s.ko.Nobody?) && (RoleOf(s.pc[p]).hasK ==> s.ko == Writer(p))
    && s.readers >= 0
  }

  lemma InvReadersLocal(s: State, p: nat)
    requires Inv(s) && p < |s.pc|
    ensures ReadersLocal(s, p)
  {
    hide SpinLocks, QueueX, QueueK, OwnerX, Wakeups, NoneForgotten, RoleOf, Local;
    InvLocal(s, p);
    if RoleOf(s.pc[p]).counted {
      CountedPositive(s, p);
    }
    if s.readers == 1 && (s.pc[p].RCounted? || s.pc[p].RInK?) {
      FirstReaderTakesK(s, p);
    }
  }

  lemma CanRlockReaders(s: State, p: nat)
    requires p < |s.pc| && ReadersLocal(s, p) && CanRlock(s, p).Some?
    ensures ReadersHold(CanRlock(s, p).value)
  {
  }

  lemma RlockReaders(s: State, p: nat)
    requires p < |s.pc| && ReadersLocal(s, p) && Rlock(s, p).Some?
    ensures ReadersHold(Rlock(s, p).value)
  {
    hide ReadersLocal, ReadersHold, RoleOf;
    var pc := s.pc[p];
    if pc.RWantX? || pc.RInX? || pc.RWaitX? || pc.RHasX? { RlockTakeReaders(s, p); }
    if pc.RInL? || pc.RCounted? { RlockCountReaders(s, p); }
    if pc.RInK? || pc.RDone? { RlockJoinReaders(s, p); }
    if pc.RDropX? || pc.RDropInX? || pc.RReady? { RlockDropReaders(s, p); }
  }

  lemma RlockTakeReaders(s: State, p: nat)
    requires p < |s.pc| && ReadersLocal(s, p) && Rlock(s, p).Some?
    requires var pc := s.pc[p]; pc.RWantX? || pc.RInX? || pc.RWaitX? || pc.RHasX?
    ensures ReadersHold(Rlock(s, p).value)
  {
  }

  lemma RlockCountReaders(s: State, p: nat)
    requires p < |s.pc| && ReadersLocal(s, p) && Rlock(s, p).Some?
    requires var pc := s.pc[p]; pc.RInL? || pc.RCounted?
    ensures ReadersHold(Rlock(s, p).value)
  {
  }

  lemma RlockJoinReaders(s: State, p: nat)
    requires p < |s.pc| && ReadersLocal(s, p) && Rlock(s, p).Some?
    requires var pc := s.pc[p]; pc.RInK? || pc.RDone?
    ensures ReadersHold(Rlock(s, p).value)
  {
  }

  lemma RlockDropReaders(s: State, p: nat)
    requires p < |s.pc| && ReadersLocal(s, p) && Rlock(s, p).Some?
    requires var pc := s.pc[p]; pc.RDropX? || pc.RDropInX? || pc.RReady?
    ensures ReadersHold(Rlock(s, p).value)
  {
  }

  lemma RunlockReaders(s: State, p: nat)
    requires p < |s.pc| && ReadersLocal(s, p) && Runlock(s, p).Some?
    ensures ReadersHold(Runlock(s, p).value)
  {
  }

  lemma WlockReaders(s: State, p: nat)
    requires p < |s.pc| && ReadersLocal(s, p) && Wlock(s, p).Some?
    ensures ReadersHold(Wlock(s, p).value)
  {
    hide ReadersLocal, ReadersHold, RoleOf;
    var pc := s.pc[p];
    if pc.WWantX? || pc.WInX? || pc.WWaitX? { WlockXReaders(s, p); }
    if pc.WHasX? || pc.WInK? || pc.WWaitK? { WlockKReaders(s, p); }
  }

  lemma WlockXReaders(s: State, p: nat)
    requires p < |s.pc| && ReadersLocal(s, p) && Wlock(s, p).Some?
    requires var pc := s.pc[p]; pc.WWantX? || pc.WInX? || pc.WWaitX?
    ensures ReadersHold(Wlock(s, p).value)
  {
  }

  lemma WlockKReaders(s: State, p: nat)
    requires p < |s.pc| && ReadersLocal(s, p) && Wlock(s, p).Some?
    requires var pc := s.pc[p]; pc.WHasX? || pc.WInK? || pc.WWaitK?
    ensures ReadersHold(Wlock(s, p).value)
  {
  }

  lemma WunlockReaders(s: State, p: nat)
    requires p < |s.pc| && ReadersLocal(s, p) && Wunlock(s, p).Some?
    ensures ReadersHold(Wunlock(s, p).value)
  {
  }

  lemma StepReaders(s: State, p: nat, choice: nat)
    requires Inv(s) && p < |s.pc| && Step(s, p, choice).Some?
    ensures ReadersHold(Step(s, p, choice).value)
  {
    InvReadersLocal(s, p);
    hide CanRlock, Rlock, Runlock, Wlock, Wunlock, Inv, ReadersLocal, RoleOf;
    if s.pc[p].Idle? || s.pc[p].Reading? || s.pc[p].Writing? { IdleReaders(s, p, choice); }
    if CanRlock(s, p).Some? { CanRlockReaders(s, p); }
    if Rlock(s, p).Some? { RlockReaders(s, p); }
    if Runlock(s, p).Some? { RunlockReaders(s, p); }
    if Wlock(s, p).Some? { WlockReaders(s, p); }
    if Wunlock(s, p).Some? { WunlockReaders(s, p); }
  }

  lemma IdleReaders(s: State, p: nat, choice: nat)
    requires p < |s.pc| && ReadersLocal(s, p) && (s.pc[p].Idle? || s.pc[p].Reading? || s.pc[p].Writing?)
    ensures ReadersHold(Step(s, p, choice).value)
  {
  }

  lemma StepInv(s: State, p: nat, choice: nat)
    requires Inv(s) && p < |s.pc| && Step(s, p, choice).Some?
    ensures Inv(Step(s, p, choice).value)
  {
    var t := Step(s, p, choice).value;
    InvLocal(s, p);
    StepMoves(s, p, choice);
    StepReaders(s, p, choice);
    hide Step, Moves, Local, SpinLocks, QueueX, QueueK, OwnerX, OwnerK, ReaderCount, ReadersHold, Wakeups, NoneForgotten;
    MoveSpinLocks(s, t, p);
    MoveQueueX(s, t, p);
    MoveQueueK(s, t, p);
    MoveOwnerX(s, t, p);
    MoveOwnerK(s, t, p);
    MoveReaderCount(s, t, p);
    MoveWakeups(s, t, p);
    MoveNoneForgotten(s, t, p);
  }

  // Runs: every process may step at any time, in any order.

  ghost predicate Next(s: State, t: State)
  {
    exists p: nat, choice: nat :: p < |s.pc| && Step(s, p, choice) == Some(t)
  }

  ghost predicate IsRun(r: seq<State>)
  {
    |r| > 0 && Init(r[0]) && forall k :: 0 <= k < |r| - 1 ==> Next(r[k], r[k+1])
  }

  lemma {:induction false} RunInv(r: seq<State>, k: nat)
    requires IsRun(r) && k < |r|
    ensures Inv(r[k])
  {
    if k == 0 {
      InitInv(r[0]);
    } else {
      RunInv(r, k - 1);
      assert Next(r[k-1], r[k]);
      var p: nat, choice: nat :| p < |r[k-1].pc| && Step(r[k-1], p, choice) == Some(r[k]);
      StepInv(r[k-1], p, choice);
    }
  }

  lemma RoleFacts(pc: Pc)
    ensures pc.RCounted? || pc.RInK? ==> RoleOf(pc).hasX && RoleOf(pc).inL
    ensures pc.Writing? ==> RoleOf(pc).hasX && RoleOf(pc).hasK && !RoleOf(pc).inL
    ensures pc.Reading? ==> RoleOf(pc).counted
  {
  }

  /** In every run a writer inside excludes every reader and every other writer. */
  lemma WriterExcludes(r: seq<State>, k: nat, p: nat, q: nat)
    requires IsRun(r) && k < |r| && p < |r[k].pc| && q < |r[k].pc|
    requires r[k].pc[p].Writing? && p != q
    ensures !r[k].pc[q].Writing? && !r[k].pc[q].Reading? && r[k].readers == 0
  {
    var s := r[k];
    RunInv(r, k);
    RoleFacts(s.pc[p]);
    RoleFacts(s.pc[q]);
    if s.l.Some? { RoleFacts(s.pc[s.l.value]); }
    hide RoleOf;
    assert s.ko == Writer(p) && s.xo == Some(p);
    assert s.readers == 0;
    if RoleOf(s.pc[q]).counted {
      CountedPositive(s, q);
    }
  }

  /** While nobody is changing the count, k is held for the readers just when there are some. */
  lemma ReadersHoldK(r: seq<State>, k: nat)
    requires IsRun(r) && k < |r|
    ensures r[k].readers == |Counted(r[k])|
    ensures r[k].l.None? ==> (r[k].ko.Readers? <==> r[k].readers > 0)
    ensures r[k].ko.Readers? ==> r[k].k.locked
  {
    RunInv(r, k);
  }

  /** In every run the first reader's canqlock of k succeeds. */
  lemma FirstCanqlockSucceeds(r: seq<State>, k: nat, p: nat)
    requires IsRun(r) && k < |r| && p < |r[k].pc| && r[k].readers == 1
    ensures r[k].pc[p].RCounted? ==> Step(r[k], p, 0).Some? && Step(r[k], p, 0).value.pc[p].RInK?
    ensures r[k].pc[p].RInK? ==> Step(r[k], p, 0).Some? && Step(r[k], p, 0).value.ko.Readers?
  {
    RunInv(r, k);
    if r[k].pc[p].RCounted? || r[k].pc[p].RInK? {
      FirstReaderTakesK(r[k], p);
    }
  }

  /** A sleep lock with waiters is locked, and is handed over in the order of the requests. */
  lemma FirstComeFirstServed(r: seq<State>, k: nat)
    requires IsRun(r) && k < |r|
    ensures r[k].x.queue != [] ==> r[k].x.locked
    ensures r[k].k.queue != [] ==> r[k].k.locked
    ensures r[k].x.given <= r[k].x.asked && r[k].x.queue == r[k].x.asked[|r[k].x.given|..]
    ensures r[k].k.given <= r[k].k.asked && r[k].k.queue == r[k].k.asked[|r[k].k.given|..]
  {
    RunInv(r, k);
  }

  /** While processes wait for a lock it changes hands only to the first of them. */
  lemma HandedToFirst(r: seq<State>, k: nat)
    requires IsRun(r) && k + 1 < |r|
    ensures var q := r[k].x.queue;
      q != [] && r[k+1].xo != r[k].xo ==> r[k+1].xo == Some(q[0]) && r[k+1].x.queue == q[1..] && r[k+1].x.locked
    ensures var q := r[k].k.queue;
      q != [] && r[k+1].ko != r[k].ko ==> r[k+1].ko == Writer(q[0]) && r[k+1].k.queue == q[1..] && r[k+1].k.locked
  {
    hide Step, RoleOf, SpinMove, WakeMove, SpinLocks, OwnerX, OwnerK, ReaderCount, ReadersHold, Wakeups, NoneForgotten, Local, Distinct;
    RunInv(r, k);
    assert Next(r[k], r[k+1]);
    var p: nat, choice: nat :| p < |r[k].pc| && Step(r[k], p, choice) == Some(r[k+1]);
    InvLocal(r[k], p);
    StepMoves(r[k], p, choice);
  }

  /** What keeps a process from taking a step. */
  lemma Blocked(s: State, p: nat)
    requires p < |s.pc| && Step(s, p, 0).None?
    ensures var role := RoleOf(s.pc[p]);
      && !role.inX && !role.inK && role.readies.None?
      && (role.inL || role.hasK ==> s.k.use.Some?)
      && (role.counted ==> s.x.use.Some? || s.l.Some?)
      && (role.hasX ==> s.x.use.Some? || s.k.use.Some? || s.l.Some? || role.waitsK)
      && (s.x.use.Some? || s.k.use.Some? || s.l.Some? || role.waitsX || role.waitsK)
      && (role.waitsX || role.waitsK ==> p !in s.wake)
  {
  }

  /** If every process that has begun a call is blocked, then none has: no wakeup is lost and nobody deadlocks. */
  lemma NobodyStuck(r: seq<State>, k: nat)
    requires IsRun(r) && k < |r|
    requires forall p :: 0 <= p < |r[k].pc| ==> r[k].pc[p].Idle? || Step(r[k], p, 0).None?
    ensures forall p :: 0 <= p < |r[k].pc| ==> r[k].pc[p].Idle?
  {
    var s := r[k];
    RunInv(r, k);
    forall p | 0 <= p < |s.pc| ensures s.pc[p].Idle? {
      StuckWait(s, p);
    }
  }

  ghost predicate AllStuck(s: State)
  {
    forall p :: 0 <= p < |s.pc| ==> s.pc[p].Idle? || Step(s, p, 0).None?
  }

  lemma IdleRole()
    ensures RoleOf(Idle) == NoRole
  {
  }

  /** Nobody is held up at a spin lock for good. */
  lemma StuckSpin(s: State)
    requires Inv(s) && AllStuck(s)
    ensures s.x.use.None? && s.k.use.None? && s.l.None?
  {
    hide Step, RoleOf, QueueX, QueueK, OwnerX, OwnerK, ReaderCount, ReadersHold, Wakeups, NoneForgotten;
    IdleRole();
    if s.x.use.Some? && !s.pc[s.x.use.value].Idle? { Blocked(s, s.x.use.value); }
    if s.k.use.Some? && !s.pc[s.k.use.value].Idle? { Blocked(s, s.k.use.value); }
    if s.l.Some? && !s.pc[s.l.value].Idle? { Blocked(s, s.l.value); }
  }

  /** No process handed a lock is left asleep. */
  lemma StuckHanded(s: State, p: nat)
    requires Inv(s) && AllStuck(s) && p < |s.pc|
    ensures p !in s.wake ==> !HandedX(s, p) && !HandedK(s, p)
  {
    hide Step, RoleOf, SpinLocks, QueueX, QueueK, OwnerX, OwnerK, ReaderCount, ReadersHold, Wakeups;
    IdleRole();
    if p !in s.wake && (HandedX(s, p) || HandedK(s, p)) {
      var q :| 0 <= q < |s.pc| && RoleOf(s.pc[q]).readies == Some(p);
      if !s.pc[q].Idle? { Blocked(s, q); }
    }
  }

  /** Nobody waits for k, whose holder could step. */
  lemma StuckK(s: State)
    requires Inv(s) && AllStuck(s)
    ensures s.k.queue == []
  {
    hide Step, RoleOf, SpinLocks, QueueX, OwnerX, Wakeups, NoneForgotten;
    StuckSpin(s);
    IdleRole();
    if s.k.queue != [] {
      assert s.k.queue[0] in s.k.queue;
      if s.ko.Writer? {
        var w := s.ko.p;
        if !s.pc[w].Idle? { Blocked(s, w); }
        StuckHanded(s, w);
      } else {
        assert s.readers > 0;
        var c :| c in Counted(s);
        if !s.pc[c].Idle? { Blocked(s, c); }
      }
    }
  }

  lemma StuckWait(s: State, p: nat)
    requires Inv(s) && AllStuck(s) && p < |s.pc|
    ensures s.pc[p].Idle?
  {
    hide Step, RoleOf, SpinLocks, ReaderCount, ReadersHold, Wakeups, NoneForgotten;
    IdleRole();
    if !s.pc[p].Idle? {
      StuckSpin(s);
      StuckK(s);
      Blocked(s, p);
      StuckHanded(s, p);
      assert p in s.x.queue;
      var o := s.xo.value;
      StuckHanded(s, o);
      if !s.pc[o].Idle? { Blocked(s, o); }
    }
  }

  // What a process can do by itself.

  /** The state after n steps of p alone; choice is the call it makes. */
  function Alone(s: State, p: nat, choice: nat, n: nat): Option<State>
    requires p < |s.pc|
    ensures Alone(s, p, choice, n).Some? ==> |Alone(s, p, choice, n).value.pc| == |s.pc|
    decreases n
  {
    if n == 0 then Some(s)
    else
      match Alone(s, p, choice, n - 1)
      case None => None
      case Some(t) => if Step(t, p, choice).Some? && |Step(t, p, choice).value.pc| == |s.pc| then Step(t, p, choice) else None
  }

  /** One more step. */
  lemma AloneNext(s: State, p: nat, choice: nat, n: nat, t: State, u: State)
    requires p < |s.pc| && Alone(s, p, choice, n) == Some(t) && |u.pc| == |s.pc| && Step(t, p, choice) == Some(u)
    ensures Alone(s, p, choice, n + 1) == Some(u)
  {
  }

  lemma NoSteps(s: State, p: nat, choice: nat)
    requires p < |s.pc|
    ensures Alone(s, p, choice, 0) == Some(s)
  {
  }

  lemma Twice(s: State, p: nat, a: Pc, b: Pc)
    requires p < |s.pc|
    ensures s.pc[p := a][p := b] == s.pc[p := b]
  {
  }

  /** A step that leads from At(u, p, a) to At(v, p, b). */
  lemma OneMove(s: State, p: nat, choice: nat, n: nat, u: State, a: Pc, v: State, b: Pc)
    requires p < |s.pc| == |u.pc| && v.pc == u.pc && Alone(s, p, choice, n) == Some(At(u, p, a))
    requires Step(At(u, p, a), p, choice) == Some(At(v.(pc := u.pc[p := a]), p, b))
    ensures Alone(s, p, choice, n + 1) == Some(At(v, p, b))
  {
    hide Step, Alone;
    Twice(u, p, a, b);
    AloneNext(s, p, choice, n, At(u, p, a), At(v, p, b));
  }

  /** The lock as taken by its first claimant. */
  function Taken(q: QLock): QLock
  {
    q.(locked := true)
  }

  function InUse(q: QLock, p: nat): QLock
  {
    q.(use := Some(p))
  }

  /** An idle process that calls rlock (0) or canrlock (1) gets x when it is free. */
  lemma ReaderGetsX(s: State, p: nat, choice: nat)
    requires p < |s.pc| && s.pc[p].Idle? && s.x.use.None? && !s.x.locked && choice < 2
    ensures Alone(s, p, choice, 3) == Some(At(s.(x := Taken(s.x), xo := Some(p)), p, RHasX))
  {
    hide Alone;
    var want, inx := if choice == 0 then RWantX else CWantX, if choice == 0 then RInX else CInX;
    NoSteps(s, p, choice);
    AloneNext(s, p, choice, 0, s, At(s, p, want));
    var s2 := s.(x := InUse(s.x, p));
    OneMove(s, p, choice, 1, s, want, s2, inx);
    OneMove(s, p, choice, 2, s2, inx, s.(x := Taken(s.x), xo := Some(p)), RHasX);
  }

  /** It is counted and finds k taken by the readers. */
  lemma ReaderCounts(s: State, p: nat, choice: nat, u: State)
    requires p < |s.pc| && u == s.(x := Taken(s.x), xo := Some(p)) && Alone(s, p, choice, 3) == Some(At(u, p, RHasX))
    requires s.l.None? && s.k.use.None? && s.k.locked
    ensures Alone(s, p, choice, 8) == Some(At(u.(readers := s.readers + 1), p, RDropX))
  {
    hide Alone;
    var v := u.(l := Some(p));
    var w := v.(readers := s.readers + 1);
    OneMove(s, p, choice, 3, u, RHasX, v, RInL);
    OneMove(s, p, choice, 4, v, RInL, w, RCounted);
    ReaderTriesK(s, p, choice, w);
    OneMove(s, p, choice, 7, w, RDone, u.(readers := s.readers + 1), RDropX);
  }

  lemma ReaderTriesK(s: State, p: nat, choice: nat, w: State)
    requires p < |s.pc| == |w.pc| && Alone(s, p, choice, 5) == Some(At(w, p, RCounted)) && w.k.use.None? && w.k.locked
    ensures Alone(s, p, choice, 7) == Some(At(w, p, RDone))
  {
    hide Alone;
    OneMove(s, p, choice, 5, w, RCounted, w.(k := InUse(w.k, p)), RInK);
    OneMove(s, p, choice, 6, w.(k := InUse(w.k, p)), RInK, w, RDone);
  }

  /** It gives x up and is inside. */
  lemma ReaderEnters(s: State, p: nat, choice: nat, u: State)
    requires p < |s.pc| && u == s.(x := Taken(s.x), xo := Some(p), readers := s.readers + 1)
    requires Alone(s, p, choice, 8) == Some(At(u, p, RDropX)) && s.x.use.None? && !s.x.locked && s.x.queue == []
    ensures Alone(s, p, choice, 10) == Some(At(u.(x := s.x, xo := None), p, Reading))
  {
    hide Alone;
    OneMove(s, p, choice, 8, u, RDropX, u.(x := InUse(u.x, p)), RDropInX);
    OneMove(s, p, choice, 9, u.(x := InUse(u.x, p)), RDropInX, u.(x := s.x, xo := None), Reading);
  }

  /**
   * Readers share: in every run, while a reader is inside and nobody has x, the spin lock of k or l, another
   * process that calls rlock or canrlock comes inside by its own ten steps, and everyone else stays where he was.
   */
  lemma ReadersShare(r: seq<State>, k: nat, q: nat, p: nat, choice: nat)
    requires IsRun(r) && k < |r| && q < |r[k].pc| && p < |r[k].pc| && choice < 2
    requires r[k].pc[q].Reading? && r[k].pc[p].Idle? && !r[k].x.locked && r[k].x.use.None? && r[k].k.use.None? && r[k].l.None?
    ensures var t := Alone(r[k], p, choice, 10);
      t.Some? && t.value.pc == r[k].pc[p := Reading] && t.value.readers == r[k].readers + 1 && !t.value.x.locked
  {
    hide Step, RoleOf, Alone, Wakeups, NoneForgotten, OwnerX, OwnerK, SpinLocks, QueueK;
    var s := r[k];
    RunInv(r, k);
    ReadingCounted(s, q);
    assert s.k.locked && s.x.queue == [];
    ReaderGetsX(s, p, choice);
    ReaderCounts(s, p, choice, s.(x := Taken(s.x), xo := Some(p)));
    ReaderEnters(s, p, choice, s.(x := Taken(s.x), xo := Some(p), readers := s.readers + 1));
  }

  lemma ReadingCounted(s: State, q: nat)
    requires Inv(s) && q < |s.pc| && s.pc[q].Reading? && s.l.None?
    ensures s.readers > 0 && s.k.locked
  {
    RoleFacts(s.pc[q]);
    hide RoleOf;
    CountedPositive(s, q);
  }

  /** canrlock gives up, and leaves everything as it was, when x is locked; it never waits. */
  lemma CanRlockRefused(s: State, p: nat)
    requires p < |s.pc| && s.pc[p].Idle? && s.x.use.None? && s.x.locked
    ensures Alone(s, p, 1, 3) == Some(s)
  {
    hide Alone;
    NoSteps(s, p, 1);
    AloneNext(s, p, 1, 0, s, At(s, p, CWantX));
    OneMove(s, p, 1, 1, s, CWantX, s.(x := InUse(s.x, p)), CInX);
    OneMove(s, p, 1, 2, s.(x := InUse(s.x, p)), CInX, s, Idle);
    assert s.pc[p := Idle] == s.pc;
  }

  /** A writer comes inside by its own five steps while nobody has or waits for x or k. */
  lemma WriterEnters(s: State, p: nat)
    requires p < |s.pc| && s.pc[p].Idle? && s.x.use.None? && !s.x.locked && s.k.use.None? && !s.k.locked
    ensures var t := Alone(s, p, 2, 5); t.Some? && t.value.pc == s.pc[p := Writing]
  {
    hide Alone, Step;
    WriterGetsX(s, p);
    WriterGetsK(s, p, s.(x := Taken(s.x), xo := Some(p)));
  }

  lemma WriterGetsX(s: State, p: nat)
    requires p < |s.pc| && s.pc[p].Idle? && s.x.use.None? && !s.x.locked
    ensures Alone(s, p, 2, 3) == Some(At(s.(x := Taken(s.x), xo := Some(p)), p, WHasX))
  {
    hide Alone;
    NoSteps(s, p, 2);
    AloneNext(s, p, 2, 0, s, At(s, p, WWantX));
    var u := s.(x := InUse(s.x, p));
    OneMove(s, p, 2, 1, s, WWantX, u, WInX);
    OneMove(s, p, 2, 2, u, WInX, s.(x := Taken(s.x), xo := Some(p)), WHasX);
  }

  lemma WriterGetsK(s: State, p: nat, v: State)
    requires p < |s.pc| == |v.pc| && Alone(s, p, 2, 3) == Some(At(v, p, WHasX)) && v.k.use.None? && !v.k.locked
    ensures Alone(s, p, 2, 5) == Some(At(v.(k := Taken(v.k), ko := Writer(p)), p, Writing))
  {
    hide Alone;
    var w := v.(k := InUse(v.k, p));
    OneMove(s, p, 2, 3, v, WHasX, w, WInK);
    OneMove(s, p, 2, 4, w, WInK, v.(k := Taken(v.k), ko := Writer(p)), Writing);
  }
}
