/**
 * The 9P request multiplexer of a mount (mountio, mountmux, mntgate, mntflushalloc, mntflushfree,
 * mntralloc and mntfree in devmnt.c) as a step system: any number of callers, replies in any order,
 * interrupts and errors at any time.  What is done under m->l or mntalloc.l is one step, with the
 * wakeup that follows it; a process goes to sleep, or does not, in one step.
 */
module MntMux {
  import opened Options
  const NOTAG: nat := 0xFFFF

  /** A reply's type, as far as it matters here. */
  datatype Kind = Other | Rflush

  /** A request: its tag, whether it is done, the tag and type in its reply, and the request it flushes. */
  datatype Rpc = Rpc(tag: nat, done: bool, rtag: nat, rtype: Kind, flushed: Option<nat>)

  /**
   * The requests in being, those of them on the free list, the tags in use, the queue, the process that reads, and
   * the requests at whose rendezvous a process sleeps.
   */
  datatype Mnt = Mnt(rpcs: map<nat, Rpc>, free: seq<nat>, used: set<nat>, queue: seq<nat>, rip: Option<nat>, asleep: set<nat>)

  /**
   * Where a caller is.  own is its chain of requests: the newest flush first, the original last; ok
   * tells whether mountio will return or raise an error.
   */
  datatype Pc =
    | Idle
    | Queue(own: seq<nat>) | Send(own: seq<nat>) | Gate(own: seq<nat>) | Rest(own: seq<nat>) | Wait(own: seq<nat>)
    | Read(own: seq<nat>) | Reading(own: seq<nat>) | Mux(own: seq<nat>)
    | Intr(own: seq<nat>) | Fail(own: seq<nat>)
    | Finish(own: seq<nat>, ok: bool) | FreeMark(own: seq<nat>, ok: bool) | FreeRm(own: seq<nat>, ok: bool)
    | FreeNext(own: seq<nat>, ok: bool)
    | Returned(own: seq<nat>, ok: bool)

  datatype State = State(m: Mnt, pc: seq<Pc>)

  /** What a step may depend on: what happens, a new request's address and tag, and an incoming reply. */
  datatype Choice = Choice(op: nat, id: nat, tag: nat, rtag: nat, rtype: Kind)

  datatype Moved = Waits | To(m: Mnt, pc: Pc)

  /** mntralloc: a request from the free list with the tag it has, or a new one with a tag not in use. */
  predicate CanAlloc(m: Mnt, c: Choice)
  {
    if m.free != [] then c.id == m.free[0] && c.id in m.rpcs
    else c.id !in m.rpcs && c.tag !in m.used && 0 < c.tag < NOTAG
  }

  function Alloc(m: Mnt, c: Choice, flushed: Option<nat>): Mnt
    requires CanAlloc(m, c)
  {
    if m.free != [] then
      m.(free := m.free[1..], rpcs := m.rpcs[c.id := m.rpcs[c.id].(done := false, flushed := flushed)])
    else
      m.(rpcs := m.rpcs[c.id := Rpc(c.tag, false, 0, Other, flushed)], used := m.used + {c.tag})
  }

  /** mntfree: at most ten requests are kept, with their tags. */
  function Free(m: Mnt, id: nat): Mnt
    requires id in m.rpcs
  {
    if |m.free| >= 10 then m.(rpcs := m.rpcs - {id}, used := m.used - {m.rpcs[id].tag})
    else m.(free := [id] + m.free)
  }

  function Set(m: Mnt, id: nat, r: Rpc): Mnt
  {
    m.(rpcs := m.rpcs[id := r])
  }

  /** The queue without one request. */
  function Without(queue: seq<nat>, id: nat): seq<nat>
  {
    if queue == [] then [] else if queue[0] == id then queue[1..] else [queue[0]] + Without(queue[1..], id)
  }

  /** The first request on the queue with this tag. */
  function WithTag(m: Mnt, queue: seq<nat>, tag: nat): Option<nat>
  {
    if queue == [] then None
    else if queue[0] in m.rpcs && m.rpcs[queue[0]].tag == tag then Some(queue[0])
    else WithTag(m, queue[1..], tag)
  }

  /** mountmux: the request that the reply in r answers is done and off the queue. */
  function Match(m: Mnt, r: Rpc): Mnt
  {
    match WithTag(m, m.queue, r.rtag)
    case None => m
    case Some(q) =>
      if q in m.rpcs then
        Set(m, q, m.rpcs[q].(done := true, rtag := r.rtag, rtype := r.rtype)).(queue := Without(m.queue, q), asleep := m.asleep - {q})
      else m
  }

  /** The first request on the queue that is not done and has a sleeper. */
  function FirstAsleep(m: Mnt, queue: seq<nat>): Option<nat>
  {
    if queue == [] then None
    else if queue[0] in m.rpcs && !m.rpcs[queue[0]].done && queue[0] in m.asleep then Some(queue[0])
    else FirstAsleep(m, queue[1..])
  }

  /** mntgate: whoever reads next will have to take the gate, and one sleeper is woken for it. */
  function LeaveGate(m: Mnt, p: nat): Mnt
  {
    if m.rip != Some(p) then m
    else m.(rip := None, asleep := match FirstAsleep(m, m.queue) { case None => m.asleep case Some(q) => m.asleep - {q} })
  }

  /** The caller's way through mountio; id is the request at the head of its chain. */
  function Serve(m: Mnt, p: nat, pc: Pc, c: Choice, id: nat): Moved
    requires !pc.Idle? && id in m.rpcs
  {
    var own := pc.own;
    match pc
    case Queue(_) => To(m.(queue := [id] + m.queue), Send(own))
    case Send(_) => To(m, if c.op == 0 then Gate(own) else if c.op == 1 then Intr(own) else Fail(own))
    case Gate(_) => if m.rip.None? then To(m.(rip := Some(p)), Read(own)) else To(m, Rest(own))
    case Rest(_) =>
      if c.op == 1 then To(m, Intr(own))
      else To(m.(asleep := if m.rpcs[id].done || m.rip.None? then m.asleep else m.asleep + {id}), Wait(own))
    case Wait(_) =>
      if c.op == 1 then To(m.(asleep := m.asleep - {id}), Intr(own))
      else if id in m.asleep then Waits
      else To(m, if m.rpcs[id].done then Finish(own, true) else Gate(own))
    case Read(_) => if m.rpcs[id].done then To(LeaveGate(m, p), Finish(own, true)) else To(m, Reading(own))
    case Reading(_) =>
      To(Set(m, id, m.rpcs[id].(rtag := c.rtag, rtype := c.rtype)),
         if c.op == 0 then Mux(own) else if c.op == 1 then Intr(own) else Fail(own))
    case Mux(_) => To(Match(m, m.rpcs[id]), Read(own))
    case Intr(_) =>
      var g := LeaveGate(m, p);
      if CanAlloc(g, c) then To(Alloc(g, c, Some(id)), Queue([c.id] + own)) else Waits
    case Fail(_) => To(LeaveGate(m, p), Finish(own, false))
    case _ => Waits
  }

  /** mntflushfree, one request of the chain after another. */
  function Release(m: Mnt, pc: Pc, id: nat): Moved
    requires id in m.rpcs
  {
    match pc
    case Finish(own, ok) => To(m, if m.rpcs[id].done then FreeNext(own, ok) else FreeMark(own, ok))
    case FreeMark(own, ok) => To(Set(m, id, m.rpcs[id].(rtype := Rflush)), FreeRm(own, ok))
    case FreeRm(own, ok) =>
      To(Set(m, id, m.rpcs[id].(done := true)).(queue := Without(m.queue, id)), FreeNext(own, ok))
    case FreeNext(own, ok) =>
      if m.rpcs[id].flushed.Some? && |own| > 1 then To(Free(m, id), Finish(own[1..], ok)) else To(m, Returned(own, ok))
    case Returned(_, _) => To(Free(m, id), Idle)
    case _ => Waits
  }

  function Step(m: Mnt, p: nat, pc: Pc, c: Choice): Moved
  {
    if pc.Idle? then
      if CanAlloc(m, c) then To(Alloc(m, c, None), Queue([c.id])) else Waits
    else if pc.own == [] || pc.own[0] !in m.rpcs then Waits
    else if Serve(m, p, pc, c, pc.own[0]).To? then Serve(m, p, pc, c, pc.own[0])
    else Release(m, pc, pc.own[0])
  }

  predicate Init(s: State)
  {
    && s.m == Mnt(map[], [], {0, NOTAG}, [], None, {})
    && forall p :: 0 <= p < |s.pc| ==> s.pc[p].Idle?
  }

  function Own(pc: Pc): seq<nat>
  {
    if pc.Idle? then [] else pc.own
  }

  predicate Distinct(q: seq<nat>)
  {
    forall i, j :: 0 <= i < j < |q| ==> q[i] != q[j]
  }

  // The invariant.

  /** Requests have different tags, in use, and never 0 or NOTAG; the free ones are among them. */
  predicate Tags(m: Mnt)
  {
    && (forall a :: a in m.rpcs ==> 0 < m.rpcs[a].tag < NOTAG && m.rpcs[a].tag in m.used)
    && (forall a, b :: a in m.rpcs && b in m.rpcs && a != b ==> m.rpcs[a].tag != m.rpcs[b].tag)
    && Distinct(m.free) && (forall a :: a in m.free ==> a in m.rpcs)
    && 0 in m.used && NOTAG in m.used
  }

  /** What the request at place k of a chain flushes. */
  function After(own: seq<nat>, k: nat): Option<nat>
    requires k < |own|
  {
    if k < |own| - 1 then Some(own[k+1]) else None
  }

  /** A caller's chain: different requests in being, not free, each flushing the next. */
  predicate Chain(m: Mnt, own: seq<nat>)
  {
    && Distinct(own)
    && (forall k :: 0 <= k < |own| ==> own[k] in m.rpcs && own[k] !in m.free)
    && (forall k :: 0 <= k < |own| ==> m.rpcs[own[k]].flushed == After(own, k))
  }

  /** A request that has been put on the queue. */
  predicate Sent(pc: Pc, id: nat)
  {
    !(pc.Queue? && pc.own != [] && pc.own[0] == id)
  }

  predicate ReplyOk(r: Rpc)
  {
    r.rtag == r.tag || r.rtype == Rflush
  }

  /** What holds of a request in the chain of a caller at pc. */
  predicate Sound(m: Mnt, pc: Pc, id: nat)
    requires id in m.rpcs
  {
    && (id in m.queue <==> !m.rpcs[id].done && Sent(pc, id))
    && (m.rpcs[id].done ==> ReplyOk(m.rpcs[id]))
  }

  /** What the caller's place says of the request at the head of its chain, and of the gate. */
  predicate Turn(m: Mnt, p: nat, pc: Pc)
  {
    && (!pc.Idle? ==> pc.own != [] && pc.own[0] in m.rpcs)
    && (pc.FreeRm? ==> ReplyOk(m.rpcs[pc.own[0]]))
    && (pc.FreeNext? || pc.Returned? ==> m.rpcs[pc.own[0]].done)
    && (pc.Returned? ==> |pc.own| == 1)
    && (pc.Queue? || pc.Reading? || pc.Mux? ==> !m.rpcs[pc.own[0]].done)
    && (pc.Read? || pc.Reading? || pc.Mux? ==> m.rip == Some(p))
    && (m.rip == Some(p) ==> pc.Read? || pc.Reading? || pc.Mux? || pc.Intr? || pc.Fail?)
  }

  predicate Caller(m: Mnt, p: nat, pc: Pc)
  {
    && Chain(m, Own(pc)) && (!pc.Idle? ==> pc.own != [])
    && (forall k :: 0 <= k < |Own(pc)| ==> Sound(m, pc, Own(pc)[k]))
    && Turn(m, p, pc)
  }

  predicate Apart(a: seq<nat>, b: seq<nat>)
  {
    forall x :: x in a ==> x !in b
  }

  ghost predicate Inv(s: State)
  {
    && Tags(s.m) && Distinct(s.m.queue)
    && (forall p :: 0 <= p < |s.pc| ==> Caller(s.m, p, s.pc[p]))
    && (forall p, q :: 0 <= p < |s.pc| && 0 <= q < |s.pc| && p != q ==> Apart(Own(s.pc[p]), Own(s.pc[q])))
    && (forall a :: a in s.m.queue ==> exists p :: 0 <= p < |s.pc| && a in Own(s.pc[p]))
    && (s.m.rip.Some? ==> s.m.rip.value < |s.pc|)
  }

  lemma InitInv(s: State)
    requires Init(s)
    ensures Inv(s)
  {
  }

  lemma {:induction false} WithoutFacts(queue: seq<nat>, id: nat)
    requires Distinct(queue)
    ensures Distinct(Without(queue, id)) && forall a :: a in Without(queue, id) <==> a in queue && a != id
  {
    if queue != [] {
      assert forall a :: a in queue <==> a == queue[0] || a in queue[1..];
      if queue[0] != id {
        WithoutFacts(queue[1..], id);
        assert queue[0] !in queue[1..];
      } else {
        assert id !in queue[1..];
      }
    }
  }

  lemma {:induction false} WithTagFacts(m: Mnt, queue: seq<nat>, tag: nat)
    ensures var r := WithTag(m, queue, tag);
      && (r.Some? ==> r.value in queue && r.value in m.rpcs && m.rpcs[r.value].tag == tag)
      && (r.None? ==> forall a :: a in queue && a in m.rpcs ==> m.rpcs[a].tag != tag)
  {
    if queue != [] {
      WithTagFacts(m, queue[1..], tag);
      assert forall a :: a in queue <==> a == queue[0] || a in queue[1..];
    }
  }

  // What a step of p does to a request that is not its own.

  predicate Untouched(m: Mnt, m': Mnt, x: nat)
  {
    && (x in m.rpcs ==> x in m'.rpcs && m'.rpcs[x] == m.rpcs[x])
    && (x in m'.queue <==> x in m.queue) && (x in m'.free <==> x in m.free)
  }

  predicate Answered(m: Mnt, m': Mnt, x: nat)
  {
    && x in m.rpcs && x in m'.rpcs && x in m.queue && x !in m'.queue && (x in m'.free <==> x in m.free)
    && m'.rpcs[x] == m.rpcs[x].(done := true, rtag := m.rpcs[x].tag, rtype := m'.rpcs[x].rtype)
  }

  lemma ChainKept(m: Mnt, m': Mnt, own: seq<nat>)
    requires Chain(m, own)
    requires forall x :: x in own ==> x in m'.rpcs && m'.rpcs[x].flushed == m.rpcs[x].flushed && x !in m'.free
    ensures Chain(m', own)
  {
  }

  /** A caller elsewhere stays right when its requests are left alone, or answered. */
  lemma OtherCaller(m: Mnt, m': Mnt, q: nat, pc: Pc)
    requires Caller(m, q, pc)
    requires forall x :: x in Own(pc) ==> Untouched(m, m', x) || (Answered(m, m', x) && m.rip != Some(q))
    requires m'.rip == Some(q) <==> m.rip == Some(q)
    ensures Caller(m', q, pc)
  {
    forall x | x in Own(pc) ensures x in m.rpcs && x !in m.free { }
    ChainKept(m, m', Own(pc));
    forall k | 0 <= k < |Own(pc)| ensures Own(pc)[k] in m'.rpcs && Sound(m', pc, Own(pc)[k]) {
      var x := Own(pc)[k];
      assert Sound(m, pc, x);
      assert x in Own(pc);
    }
    if !pc.Idle? { assert pc.own[0] in Own(pc); }
  }

  /** A caller's own requests after its step: all but the first as they were, or answered. */
  lemma OwnKept(m: Mnt, m': Mnt, pc: Pc, d: Pc)
    requires Chain(m, Own(pc)) && Own(d) == Own(pc) != []
    requires forall k :: 0 <= k < |Own(pc)| ==> Sound(m, pc, Own(pc)[k])
    requires forall x :: x in Own(pc) && x != Own(pc)[0] ==> Untouched(m, m', x) || Answered(m, m', x)
    requires var x := Own(pc)[0]; x in m'.rpcs && m'.rpcs[x].flushed == m.rpcs[x].flushed && x !in m'.free && Sound(m', d, x)
    requires forall x :: x in Own(pc) && x != Own(pc)[0] ==> Sent(d, x) && Sent(pc, x)
    ensures Chain(m', Own(d)) && forall k :: 0 <= k < |Own(d)| ==> Sound(m', d, Own(d)[k])
  {
    forall x | x in Own(pc) ensures x in m.rpcs && x !in m.free { }
    ChainKept(m, m', Own(pc));
    forall k | 0 <= k < |Own(d)| ensures Sound(m', d, Own(d)[k]) {
      assert Own(pc)[k] in Own(pc);
      assert Sound(m, pc, Own(pc)[k]);
      if k > 0 { assert Own(pc)[k] != Own(pc)[0]; }
    }
  }

  /** Tags depend on the requests, their tags and the free list only. */
  lemma TagsKept(m: Mnt, m': Mnt)
    requires Tags(m) && m'.rpcs.Keys == m.rpcs.Keys && m'.free == m.free && m'.used == m.used
    requires forall x :: x in m.rpcs ==> m'.rpcs[x].tag == m.rpcs[x].tag
    ensures Tags(m')
  {
  }

  /** Only the first of a chain can be unsent. */
  lemma RestSent(pc: Pc, x: nat)
    requires !pc.Idle? && (pc.Queue? ==> pc.own != [] && x != pc.own[0])
    ensures Sent(pc, x)
  {
  }

  /** What everybody else may rely on when p steps from pc to d. */
  predicate Effects(m: Mnt, m': Mnt, p: nat, pc: Pc, d: Pc, added: nat)
  {
    && Tags(m') && Distinct(m'.queue) && Caller(m', p, d)
    && (forall x :: x in m.rpcs && x !in Own(pc) && x !in m.free ==>
        Untouched(m, m', x) || (Answered(m, m', x) && m.rip == Some(p)))
    && (forall x :: x in Own(d) ==> x in Own(pc) || (x == added && (x in m.free || x !in m.rpcs)))
    && (forall x :: x in m'.queue ==> (x in m.queue && (x in Own(pc) ==> x in Own(d))) || x in Own(d))
    && (m'.rip == m.rip || (m.rip.None? && m'.rip == Some(p)) || (m.rip == Some(p) && m'.rip.None?))
  }

  /** What a step that keeps the caller's chain has to see to. */
  lemma Conclude(m: Mnt, m': Mnt, p: nat, pc: Pc, d: Pc, added: nat)
    requires Caller(m, p, pc) && Own(d) == Own(pc) != [] && m'.free == m.free
    requires Tags(m') && Distinct(m'.queue)
    requires forall x :: x in m.rpcs && x != Own(pc)[0] ==> Untouched(m, m', x) || (Answered(m, m', x) && m.rip == Some(p))
    requires var x := Own(pc)[0]; x in m.rpcs ==> x in m'.rpcs && m'.rpcs[x].flushed == m.rpcs[x].flushed && Sound(m', d, x)
    requires forall x :: x in m'.queue ==> x in m.queue || x == Own(pc)[0]
    requires Turn(m', p, d)
    requires m'.rip == m.rip || (m.rip.None? && m'.rip == Some(p)) || (m.rip == Some(p) && m'.rip.None?)
    ensures Effects(m, m', p, pc, d, added)
  {
    forall x | x in Own(pc) ensures x in m.rpcs && x !in m.free { }
    assert Own(pc)[0] in Own(pc);
    forall x | x in Own(pc) && x != Own(pc)[0] ensures Sent(d, x) && Sent(pc, x) {
      RestSent(pc, x);
      RestSent(d, x);
    }
    OwnKept(m, m', pc, d);
  }

  predicate QueueUsed(m: Mnt)
  {
    forall x :: x in m.queue ==> x in m.rpcs && x !in m.free
  }

  /** A step that changes no request and not the queue. */
  lemma MoveTo(m: Mnt, m': Mnt, p: nat, pc: Pc, d: Pc, added: nat)
    requires Tags(m) && Distinct(m.queue) && Caller(m, p, pc) && Own(d) == Own(pc) != [] && !pc.Queue? && !d.Queue?
    requires m' == m.(rip := m'.rip, asleep := m'.asleep) && Turn(m', p, d)
    requires m'.rip == m.rip || (m.rip.None? && m'.rip == Some(p)) || (m.rip == Some(p) && m'.rip.None?)
    ensures Effects(m, m', p, pc, d, added)
  {
    hide Tags, Distinct, Turn, Effects;
    assert Sound(m, pc, Own(pc)[0]);
    TagsKept(m, m');
    Conclude(m, m', p, pc, d, added);
  }

  lemma MoveOnly(m: Mnt, p: nat, pc: Pc, c: Choice)
    requires Tags(m) && Distinct(m.queue) && QueueUsed(m) && Caller(m, p, pc) && Step(m, p, pc, c).To?
    requires pc.Send? || pc.Gate? || pc.Rest? || pc.Wait? || pc.Read? || pc.Fail? || pc.Finish?
    ensures var t := Step(m, p, pc, c); Effects(m, t.m, p, pc, t.pc, c.id)
  {
    hide Tags, Distinct, Chain, Sound, Effects, QueueUsed, FirstAsleep;
    var t := Step(m, p, pc, c);
    MoveTo(m, t.m, p, pc, t.pc, c.id);
  }

  lemma MarkOwn(m: Mnt, p: nat, pc: Pc, c: Choice)
    requires Tags(m) && Distinct(m.queue) && QueueUsed(m) && Caller(m, p, pc) && Step(m, p, pc, c).To? && (pc.Reading? || pc.FreeMark?)
    ensures var t := Step(m, p, pc, c); Effects(m, t.m, p, pc, t.pc, c.id)
  {
    hide Tags, Distinct;
    var t := Step(m, p, pc, c);
    var x := pc.own[0];
    assert Sound(m, pc, Own(pc)[0]);
    TagsKept(m, t.m);
    Conclude(m, t.m, p, pc, t.pc, c.id);
  }

  lemma PutOnQueue(m: Mnt, p: nat, pc: Pc, c: Choice)
    requires Tags(m) && Distinct(m.queue) && QueueUsed(m) && Caller(m, p, pc) && Step(m, p, pc, c).To? && (pc.Queue?)
    ensures var t := Step(m, p, pc, c); Effects(m, t.m, p, pc, t.pc, c.id)
  {
    hide Tags, Distinct;
    var t := Step(m, p, pc, c);
    var x := pc.own[0];
    assert Sound(m, pc, Own(pc)[0]);
    PushDistinct(m.queue, x);
    TagsKept(m, t.m);
    Conclude(m, t.m, p, pc, t.pc, c.id);
  }

  lemma PushDistinct(q: seq<nat>, x: nat)
    requires Distinct(q)
    ensures x !in q ==> Distinct([x] + q)
  {
  }

  lemma TakeOffQueue(m: Mnt, p: nat, pc: Pc, c: Choice)
    requires Tags(m) && Distinct(m.queue) && QueueUsed(m) && Caller(m, p, pc) && Step(m, p, pc, c).To? && (pc.FreeRm?)
    ensures var t := Step(m, p, pc, c); Effects(m, t.m, p, pc, t.pc, c.id)
  {
    hide Tags, Distinct;
    var t := Step(m, p, pc, c);
    var x := pc.own[0];
    assert Sound(m, pc, Own(pc)[0]);
    WithoutFacts(m.queue, x);
    TagsKept(m, t.m);
    Conclude(m, t.m, p, pc, t.pc, c.id);
  }

  lemma AnswerOne(m: Mnt, p: nat, pc: Pc, c: Choice)
    requires Tags(m) && Distinct(m.queue) && QueueUsed(m) && Caller(m, p, pc) && Step(m, p, pc, c).To? && (pc.Mux?)
    ensures var t := Step(m, p, pc, c); Effects(m, t.m, p, pc, t.pc, c.id)
  {
    hide Tags, Distinct;
    var t := Step(m, p, pc, c);
    var x := pc.own[0];
    assert Sound(m, pc, Own(pc)[0]);
    WithTagFacts(m, m.queue, m.rpcs[x].rtag);
    var q := WithTag(m, m.queue, m.rpcs[x].rtag);
    if q.Some? { WithoutFacts(m.queue, q.value); }
    TagsKept(m, t.m);
    Conclude(m, t.m, p, pc, t.pc, c.id);
  }

  lemma AllocFirst(m: Mnt, p: nat, pc: Pc, c: Choice)
    requires Tags(m) && Distinct(m.queue) && QueueUsed(m) && Caller(m, p, pc) && Step(m, p, pc, c).To? && pc.Idle?
    ensures var t := Step(m, p, pc, c); Effects(m, t.m, p, pc, t.pc, c.id)
  {
    hide Distinct, Tags;
    var t := Step(m, p, pc, c);
    AllocTags(m, c, None);
    AllocChain(m, t.m, [], c.id);
    assert [c.id] + [] == [c.id];
  }

  lemma AllocFlush(m: Mnt, p: nat, pc: Pc, c: Choice)
    requires Tags(m) && Distinct(m.queue) && QueueUsed(m) && Caller(m, p, pc) && Step(m, p, pc, c).To? && pc.Intr?
    ensures var t := Step(m, p, pc, c); Effects(m, t.m, p, pc, t.pc, c.id)
  {
    var g := LeaveGate(m, p);
    TagsKept(m, g);
    FlushEffects(m, g, p, pc.own, c);
    hide Effects, Tags, Distinct, QueueUsed, Alloc, Chain, Sound;
  }

  lemma FlushChain(m: Mnt, g: Mnt, p: nat, own: seq<nat>, c: Choice)
    requires Tags(g) && QueueUsed(m) && Caller(m, p, Intr(own))
    requires g == m.(rip := g.rip, asleep := g.asleep) && g.rip != Some(p) && CanAlloc(g, c)
    ensures Chain(Alloc(g, c, Some(own[0])), [c.id] + own) && c.id !in own
    ensures forall x :: x in own ==> x in m.rpcs && Untouched(m, Alloc(g, c, Some(own[0])), x)
  {
    AllocTags(g, c, Some(own[0]));
    AllocShape(g, c, Some(own[0]));
    hide Tags, Alloc, CanAlloc, Sound, Turn;
    assert own == Own(Intr(own));
    forall x | x in own ensures x in m.rpcs && x !in m.free && x != c.id { }
    assert Chain(g, own) by { ChainKept(m, g, own); }
    AllocChain(g, Alloc(g, c, Some(own[0])), own, c.id);
  }

  lemma FlushSound(m: Mnt, m': Mnt, own: seq<nat>, id: nat, k: nat)
    requires k < |own| && own[k] != id && own[k] in m.rpcs && Sound(m, Intr(own), own[k]) && Untouched(m, m', own[k])
    ensures own[k] in m'.rpcs && Sound(m', Queue([id] + own), own[k])
  {
    hide Sound, Sent;
    RestSent(Intr(own), own[k]);
    RestSent(Queue([id] + own), own[k]);
    SoundKept(m, m', Intr(own), Queue([id] + own), own[k]);
  }

  lemma FlushHead(m: Mnt, g: Mnt, own: seq<nat>, c: Choice)
    requires QueueUsed(m) && CanAlloc(g, c) && own != [] && g == m.(rip := g.rip, asleep := g.asleep)
    ensures var m' := Alloc(g, c, Some(own[0])); c.id in m'.rpcs && Sound(m', Queue([c.id] + own), c.id) && !m'.rpcs[c.id].done
  {
    AllocShape(g, c, Some(own[0]));
    hide Alloc;
  }

  lemma FlushCaller(m: Mnt, g: Mnt, p: nat, own: seq<nat>, c: Choice)
    requires Tags(g) && QueueUsed(m) && Caller(m, p, Intr(own))
    requires g == m.(rip := g.rip, asleep := g.asleep) && g.rip != Some(p) && CanAlloc(g, c)
    ensures Caller(Alloc(g, c, Some(own[0])), p, Queue([c.id] + own)) && c.id !in own
  {
    hide Tags, Alloc, CanAlloc, Chain, Untouched, Sound, Sent, QueueUsed, Turn;
    FlushChain(m, g, p, own, c);
    FlushSounds(m, g, p, own, c);
    FlushTurn(m, g, p, own, c);
  }

  lemma FlushSounds(m: Mnt, g: Mnt, p: nat, own: seq<nat>, c: Choice)
    requires Tags(g) && QueueUsed(m) && Caller(m, p, Intr(own))
    requires g == m.(rip := g.rip, asleep := g.asleep) && g.rip != Some(p) && CanAlloc(g, c)
    ensures var m', l := Alloc(g, c, Some(own[0])), [c.id] + own;
      forall k :: 0 <= k < |l| ==> l[k] in m'.rpcs && Sound(m', Queue(l), l[k])
  {
    hide Tags, Alloc, CanAlloc, Chain, Untouched, Sound, Sent, QueueUsed, Turn;
    var m', l := Alloc(g, c, Some(own[0])), [c.id] + own;
    FlushChain(m, g, p, own, c);
    FlushHead(m, g, own, c);
    forall k | 0 <= k < |l| ensures l[k] in m'.rpcs && Sound(m', Queue(l), l[k]) {
      if k > 0 {
        assert l[k] == own[k-1] == Own(Intr(own))[k-1] && own[k-1] in own;
        assert Sound(m, Intr(own), Own(Intr(own))[k-1]);
        FlushSound(m, m', own, c.id, k - 1);
      }
    }
  }

  lemma FlushTurn(m: Mnt, g: Mnt, p: nat, own: seq<nat>, c: Choice)
    requires g.rip != Some(p) && CanAlloc(g, c) && own != []
    ensures Turn(Alloc(g, c, Some(own[0])), p, Queue([c.id] + own))
  {
    AllocShape(g, c, Some(own[0]));
    hide Alloc, CanAlloc;
  }

  lemma SoundKept(m: Mnt, m': Mnt, pc: Pc, d: Pc, x: nat)
    requires x in m.rpcs && Sound(m, pc, x) && Untouched(m, m', x) && Sent(pc, x) == Sent(d, x)
    ensures x in m'.rpcs && Sound(m', d, x)
  {
  }

  /** A flush goes to the head of the chain. */
  lemma FlushEffects(m: Mnt, g: Mnt, p: nat, own: seq<nat>, c: Choice)
    requires Tags(g) && Distinct(m.queue) && QueueUsed(m) && Caller(m, p, Intr(own))
    requires g == m.(rip := g.rip, asleep := g.asleep) && g.rip != Some(p) && CanAlloc(g, c)
    requires g.rip == m.rip || (m.rip == Some(p) && g.rip.None?)
    ensures Effects(m, Alloc(g, c, Some(own[0])), p, Intr(own), Queue([c.id] + own), c.id)
  {
    hide Distinct, Tags, Alloc, CanAlloc, Step, Caller, Chain, Sound, Turn;
    NotEmptyOwn(m, p, Intr(own));
    FlushCaller(m, g, p, own, c);
    AllocTags(g, c, Some(own[0]));
    AllocShape(g, c, Some(own[0]));
  }

  /** What an allocation changes. */
  lemma AllocShape(m: Mnt, c: Choice, flushed: Option<nat>)
    requires CanAlloc(m, c)
    ensures var m' := Alloc(m, c, flushed);
      && m'.queue == m.queue && m'.rip == m.rip && m'.rpcs.Keys == m.rpcs.Keys + {c.id}
      && (forall x :: x in m.rpcs && x != c.id ==> m'.rpcs[x] == m.rpcs[x])
      && !m'.rpcs[c.id].done && m'.rpcs[c.id].flushed == flushed
  {
  }

  lemma AllocTags(m: Mnt, c: Choice, flushed: Option<nat>)
    requires Tags(m) && CanAlloc(m, c)
    ensures Tags(Alloc(m, c, flushed)) && (c.id in m.free || c.id !in m.rpcs)
    ensures c.id !in Alloc(m, c, flushed).free
    ensures forall x :: x in m.free && x != c.id ==> x in Alloc(m, c, flushed).free
    ensures forall x :: x in Alloc(m, c, flushed).free ==> x in m.free
  {
    if m.free != [] {
      assert m.free == [m.free[0]] + m.free[1..];
    }
  }

  lemma AllocChain(m: Mnt, m': Mnt, own: seq<nat>, id: nat)
    requires Chain(m, own) && id !in own && id in m'.rpcs && id !in m'.free
    requires forall x :: x in own ==> x in m'.rpcs && m'.rpcs[x] == m.rpcs[x] && x !in m'.free
    requires m'.rpcs[id].flushed == if own == [] then None else Some(own[0])
    ensures Chain(m', [id] + own)
  {
    var l := [id] + own;
    forall k | 0 <= k < |l| ensures l[k] in m'.rpcs && l[k] !in m'.free && m'.rpcs[l[k]].flushed == After(l, k) {
      if k > 0 {
        assert l[k] == own[k-1];
        assert m.rpcs[own[k-1]].flushed == After(own, k - 1);
      }
    }
  }

  lemma FreeFlush(m: Mnt, p: nat, pc: Pc, c: Choice)
    requires Tags(m) && Distinct(m.queue) && QueueUsed(m) && Caller(m, p, pc) && Step(m, p, pc, c).To? && pc.FreeNext? && |pc.own| > 1
    ensures var t := Step(m, p, pc, c); Effects(m, t.m, p, pc, t.pc, c.id)
  {
    hide Effects, Tags, Distinct, QueueUsed, Free, Step, Caller;
    FlushStep(m, p, pc, c);
    DropEffects(m, p, pc.own, pc.ok, c.id);
  }

  lemma FlushStep(m: Mnt, p: nat, pc: Pc, c: Choice)
    requires Caller(m, p, pc) && Step(m, p, pc, c).To? && pc.FreeNext? && |pc.own| > 1
    ensures pc.own[0] in m.rpcs && Step(m, p, pc, c) == To(Free(m, pc.own[0]), Finish(pc.own[1..], pc.ok))
  {
    hide Free, Sound;
    assert m.rpcs[Own(pc)[0]].flushed == After(Own(pc), 0);
  }

  lemma DropCaller(m: Mnt, p: nat, own: seq<nat>, ok: bool)
    requires Tags(m) && Caller(m, p, FreeNext(own, ok)) && |own| > 1
    ensures Caller(Free(m, own[0]), p, Finish(own[1..], ok))
    ensures own[0] in m.rpcs && own[0] !in m.free && own[0] !in own[1..] && own[0] !in m.queue
  {
    hide Tags, Free, Turn, Sound, Chain, Distinct;
    DropChain(m, p, own, ok);
    DropSounds(m, p, own, ok);
    DropTurn(m, p, own, ok);
  }

  lemma DropChain(m: Mnt, p: nat, own: seq<nat>, ok: bool)
    requires Caller(m, p, FreeNext(own, ok)) && |own| > 1
    ensures own[0] in m.rpcs && own[0] !in m.free && own[0] !in own[1..] && Chain(Free(m, own[0]), own[1..])
    ensures forall k :: 0 < k < |own| ==> own[k] in m.rpcs && own[k] != own[0]
  {
    hide Sound, Turn;
    assert own == Own(FreeNext(own, ok));
    FreeShape(m, own[0]);
    hide Free;
    forall x | x in own ensures x in m.rpcs && x !in m.free { }
    FreeChain(m, Free(m, own[0]), own);
  }

  lemma DropSounds(m: Mnt, p: nat, own: seq<nat>, ok: bool)
    requires Caller(m, p, FreeNext(own, ok)) && |own| > 1 && own[0] in m.rpcs
    requires forall k :: 0 < k < |own| ==> own[k] in m.rpcs && own[k] != own[0]
    ensures var m', l := Free(m, own[0]), own[1..];
      forall k :: 0 <= k < |l| ==> l[k] in m'.rpcs && Sound(m', Finish(l, ok), l[k])
  {
    hide Turn, Chain;
    FreeShape(m, own[0]);
    hide Free;
    var m', l := Free(m, own[0]), own[1..];
    forall k | 0 <= k < |l| ensures l[k] in m'.rpcs && Sound(m', Finish(l, ok), l[k]) {
      assert l[k] == own[k+1] == Own(FreeNext(own, ok))[k+1];
      assert Sound(m, FreeNext(own, ok), Own(FreeNext(own, ok))[k+1]);
    }
  }

  lemma DropTurn(m: Mnt, p: nat, own: seq<nat>, ok: bool)
    requires Caller(m, p, FreeNext(own, ok)) && |own| > 1 && own[0] in m.rpcs && Chain(Free(m, own[0]), own[1..])
    ensures own[0] !in m.queue && Turn(Free(m, own[0]), p, Finish(own[1..], ok))
  {
    assert Sound(m, FreeNext(own, ok), Own(FreeNext(own, ok))[0]);
    FreeShape(m, own[0]);
    hide Free;
    var l := own[1..];
    assert l[0] in Free(m, own[0]).rpcs;
  }

  /** A flush leaves the head of the chain. */
  lemma DropEffects(m: Mnt, p: nat, own: seq<nat>, ok: bool, added: nat)
    requires Tags(m) && Distinct(m.queue) && Caller(m, p, FreeNext(own, ok)) && |own| > 1
    ensures Effects(m, Free(m, own[0]), p, FreeNext(own, ok), Finish(own[1..], ok), added)
  {
    hide Distinct, Tags, Free, Step, Caller, Chain;
    DropCaller(m, p, own, ok);
    FreeTags(m, own[0]);
    FreeShape(m, own[0]);
    assert own == [own[0]] + own[1..];
    DropGate(m, p, own, ok);
  }

  lemma DropGate(m: Mnt, p: nat, own: seq<nat>, ok: bool)
    requires Caller(m, p, FreeNext(own, ok))
    ensures m.rip != Some(p)
  {
    hide Chain, Sound;
  }

  lemma FreeLast(m: Mnt, p: nat, pc: Pc, c: Choice)
    requires Tags(m) && Distinct(m.queue) && QueueUsed(m) && Caller(m, p, pc) && Step(m, p, pc, c).To? && pc.FreeNext? && |pc.own| == 1
    ensures var t := Step(m, p, pc, c); Effects(m, t.m, p, pc, t.pc, c.id)
  {
    hide Distinct, Tags;
    var t := Step(m, p, pc, c);
    assert Sound(m, pc, Own(pc)[0]);
    assert m.rpcs[pc.own[0]].flushed == After(Own(pc), 0);
    Conclude(m, t.m, p, pc, t.pc, c.id);
  }

  lemma FreeOriginal(m: Mnt, p: nat, pc: Pc, c: Choice)
    requires Tags(m) && Distinct(m.queue) && QueueUsed(m) && Caller(m, p, pc) && Step(m, p, pc, c).To? && pc.Returned?
    ensures var t := Step(m, p, pc, c); Effects(m, t.m, p, pc, t.pc, c.id)
  {
    hide Distinct, Tags, Free;
    var x := pc.own[0];
    assert Sound(m, pc, Own(pc)[0]);
    assert pc.own == [x];
    FreeTags(m, x);
    FreeShape(m, x);
    assert Chain(Free(m, x), []) by { NoChain(Free(m, x)); }
  }

  lemma NoChain(m: Mnt)
    ensures Chain(m, [])
  {
  }

  /** What freeing a request changes. */
  lemma FreeShape(m: Mnt, id: nat)
    requires id in m.rpcs
    ensures var m' := Free(m, id);
      && m'.queue == m.queue && m'.rip == m.rip
      && (forall x :: x in m.rpcs && x != id ==> x in m'.rpcs && m'.rpcs[x] == m.rpcs[x])
      && (forall x :: x != id ==> (x in m'.free <==> x in m.free))
  {
  }

  lemma FreeTags(m: Mnt, id: nat)
    requires Tags(m) && id in m.rpcs && id !in m.free
    ensures Tags(Free(m, id))
  {
    var m' := Free(m, id);
    if |m.free| >= 10 {
      forall a | a in m'.rpcs ensures m'.rpcs[a].tag in m'.used { }
    } else {
      PushDistinct(m.free, id);
    }
  }

  lemma FreeChain(m: Mnt, m': Mnt, own: seq<nat>)
    requires Chain(m, own) && |own| > 1
    requires forall x :: x in own && x != own[0] ==> x in m'.rpcs && m'.rpcs[x] == m.rpcs[x] && x !in m'.free
    ensures Chain(m', own[1..])
  {
    var l := own[1..];
    forall k | 0 <= k < |l| ensures l[k] in m'.rpcs && l[k] !in m'.free && m'.rpcs[l[k]].flushed == After(l, k) {
      assert l[k] == own[k+1] && own[k+1] in own && own[k+1] != own[0];
      assert m.rpcs[own[k+1]].flushed == After(own, k + 1);
    }
  }

  lemma NotEmpty(m: Mnt, p: nat, pc: Pc)
    requires Caller(m, p, pc) && !pc.Idle?
    ensures |pc.own| > 0
  {
  }

  lemma StepEffects(m: Mnt, p: nat, pc: Pc, c: Choice)
    requires Tags(m) && Distinct(m.queue) && QueueUsed(m) && Caller(m, p, pc) && Step(m, p, pc, c).To?
    ensures var t := Step(m, p, pc, c); Effects(m, t.m, p, pc, t.pc, c.id)
  {
    hide *;
    match pc
    case Idle => AllocFirst(m, p, pc, c);
    case Queue(_) => PutOnQueue(m, p, pc, c);
    case Send(_) => MoveOnly(m, p, pc, c);
    case Gate(_) => MoveOnly(m, p, pc, c);
    case Rest(_) => MoveOnly(m, p, pc, c);
    case Wait(_) => MoveOnly(m, p, pc, c);
    case Read(_) => MoveOnly(m, p, pc, c);
    case Reading(_) => MarkOwn(m, p, pc, c);
    case Mux(_) => AnswerOne(m, p, pc, c);
    case Intr(_) => AllocFlush(m, p, pc, c);
    case Fail(_) => MoveOnly(m, p, pc, c);
    case Finish(_, _) => MoveOnly(m, p, pc, c);
    case FreeMark(_, _) => MarkOwn(m, p, pc, c);
    case FreeRm(_, _) => TakeOffQueue(m, p, pc, c);
    case FreeNext(own, _) => if |own| > 1 { FreeFlush(m, p, pc, c); } else { NotEmpty(m, p, pc); FreeLast(m, p, pc, c); }
    case Returned(_, _) => FreeOriginal(m, p, pc, c);
  }

  /** One step of process p takes s to t. */
  ghost predicate Next(s: State, t: State, p: nat)
  {
    p < |s.pc| && exists c :: Step(s.m, p, s.pc[p], c).To? && t == State(Step(s.m, p, s.pc[p], c).m, s.pc[p := Step(s.m, p, s.pc[p], c).pc])
  }

  lemma InvQueue(s: State)
    requires Inv(s)
    ensures QueueUsed(s.m)
  {
    forall a | a in s.m.queue ensures a in s.m.rpcs && a !in s.m.free {
      var p :| 0 <= p < |s.pc| && a in Own(s.pc[p]);
      assert Caller(s.m, p, s.pc[p]);
    }
  }

  /** Another process's requests are not p's, nor free, nor new. */
  lemma NotMine(s: State, p: nat, q: nat, x: nat)
    requires Inv(s) && p < |s.pc| && q < |s.pc| && p != q && x in Own(s.pc[q])
    ensures x in s.m.rpcs && x !in s.m.free && x !in Own(s.pc[p])
  {
    assert Caller(s.m, q, s.pc[q]);
    assert Apart(Own(s.pc[q]), Own(s.pc[p]));
  }

  lemma StepInv(s: State, t: State, p: nat, c: Choice)
    requires Inv(s) && p < |s.pc| && Step(s.m, p, s.pc[p], c).To?
    requires t == State(Step(s.m, p, s.pc[p], c).m, s.pc[p := Step(s.m, p, s.pc[p], c).pc])
    ensures Inv(t)
  {
    var pc, d := s.pc[p], t.pc[p];
    assert Caller(s.m, p, pc);
    InvQueue(s);
    StepEffects(s.m, p, pc, c);
    hide Step, Caller, Tags, Distinct, Own, Untouched, Answered;
    forall q | 0 <= q < |t.pc| ensures Caller(t.m, q, t.pc[q]) {
      if q != p {
        OthersStay(s, t, p, q, d, c.id);
      }
    }
    forall q, r | 0 <= q < |t.pc| && 0 <= r < |t.pc| && q != r ensures Apart(Own(t.pc[q]), Own(t.pc[r])) {
      StaysApart(s, t, p, q, r, c.id);
    }
    forall a | a in t.m.queue ensures exists q :: 0 <= q < |t.pc| && a in Own(t.pc[q]) {
      if a in Own(d) {
        assert a in Own(t.pc[p]);
      } else {
        var q :| 0 <= q < |s.pc| && a in Own(s.pc[q]);
        assert q != p && t.pc[q] == s.pc[q];
      }
    }
  }

  lemma OthersStay(s: State, t: State, p: nat, q: nat, d: Pc, added: nat)
    requires Inv(s) && p < |s.pc| && q < |s.pc| && q != p && |t.pc| == |s.pc| && t.pc == s.pc[p := d]
    requires Effects(s.m, t.m, p, s.pc[p], d, added)
    ensures Caller(t.m, q, t.pc[q])
  {
    hide Tags, Distinct;
    forall x | x in Own(s.pc[q]) ensures Untouched(s.m, t.m, x) || (Answered(s.m, t.m, x) && s.m.rip != Some(q)) {
      NotMine(s, p, q, x);
    }
    assert Caller(s.m, q, s.pc[q]);
    hide Caller, Untouched, Answered, Own;
    OtherCaller(s.m, t.m, q, s.pc[q]);
  }

  lemma StaysApart(s: State, t: State, p: nat, q: nat, r: nat, added: nat)
    requires Inv(s) && p < |s.pc| && q < |s.pc| && r < |s.pc| && q != r && |t.pc| == |s.pc| && t.pc == s.pc[p := t.pc[p]]
    requires Effects(s.m, t.m, p, s.pc[p], t.pc[p], added)
    ensures Apart(Own(t.pc[q]), Own(t.pc[r]))
  {
    hide Caller, Tags, Distinct, Own, Untouched, Answered;
    if q == p {
      forall x | x in Own(t.pc[r]) ensures x !in Own(t.pc[q]) { NotMine(s, p, r, x); }
    } else if r == p {
      forall x | x in Own(t.pc[q]) ensures x !in Own(t.pc[r]) { NotMine(s, p, q, x); }
    }
  }

  // Runs.

  ghost predicate Follows(s: State, t: State)
  {
    exists p :: Next(s, t, p)
  }

  ghost predicate IsRun(r: seq<State>)
  {
    |r| > 0 && Init(r[0]) && forall k :: 0 <= k < |r| - 1 ==> Follows(r[k], r[k+1])
  }

  lemma {:induction false} RunInv(r: seq<State>, k: nat)
    requires IsRun(r) && k < |r|
    ensures Inv(r[k])
  {
    hide Inv, Step, Init;
    if k == 0 {
      InitInv(r[0]);
    } else {
      RunInv(r, k - 1);
      assert Follows(r[k-1], r[k]);
      var p: nat :| Next(r[k-1], r[k], p);
      var s := r[k-1];
      var c :| Step(s.m, p, s.pc[p], c).To? && r[k] == State(Step(s.m, p, s.pc[p], c).m, s.pc[p := Step(s.m, p, s.pc[p], c).pc]);
      StepInv(s, r[k], p, c);
    }
  }

  /** In every run the requests in being have different tags, none of them 0 or NOTAG. */
  lemma TagsDistinct(r: seq<State>, k: nat, a: nat, b: nat)
    requires IsRun(r) && k < |r| && a in r[k].m.rpcs && b in r[k].m.rpcs
    ensures 0 < r[k].m.rpcs[a].tag < NOTAG
    ensures a != b ==> r[k].m.rpcs[a].tag != r[k].m.rpcs[b].tag
  {
    RunInv(r, k);
  }

  /** At most one process reads replies. */
  lemma OneReader(r: seq<State>, k: nat, p: nat, q: nat)
    requires IsRun(r) && k < |r| && p < |r[k].pc| && q < |r[k].pc|
    requires r[k].pc[p].Reading? || r[k].pc[p].Mux?
    requires r[k].pc[q].Reading? || r[k].pc[q].Mux?
    ensures p == q
  {
    RunInv(r, k);
    assert Caller(r[k].m, p, r[k].pc[p]) && Caller(r[k].m, q, r[k].pc[q]);
  }

  /** A request is on the queue just while it has been queued by its caller and is not done. */
  lemma QueuedWhileUnanswered(r: seq<State>, k: nat, p: nat, x: nat)
    requires IsRun(r) && k < |r| && p < |r[k].pc| && x in Own(r[k].pc[p])
    ensures x in r[k].m.rpcs
    ensures x in r[k].m.queue <==> Sent(r[k].pc[p], x) && !r[k].m.rpcs[x].done
  {
    RunInv(r, k);
    assert Caller(r[k].m, p, r[k].pc[p]);
    var i :| 0 <= i < |Own(r[k].pc[p])| && Own(r[k].pc[p])[i] == x;
    assert Sound(r[k].m, r[k].pc[p], Own(r[k].pc[p])[i]);
  }

  /** When mountio returns, or raises its error, the original is off the queue with a reply of its own or an Rflush. */
  lemma ReturnsAnswered(r: seq<State>, k: nat, p: nat)
    requires IsRun(r) && k < |r| && p < |r[k].pc| && r[k].pc[p].Returned?
    ensures |r[k].pc[p].own| == 1
    ensures var x := r[k].pc[p].own[0];
      x in r[k].m.rpcs && x !in r[k].m.queue && (r[k].m.rpcs[x].rtag == r[k].m.rpcs[x].tag || r[k].m.rpcs[x].rtype == Rflush)
  {
    RunInv(r, k);
    var pc := r[k].pc[p];
    assert Caller(r[k].m, p, pc);
    assert Sound(r[k].m, pc, Own(pc)[0]);
  }

  // No request and no tag is lost.

  /** The tags in use are those of the requests in being, and at most ten requests are kept. */
  ghost predicate Tidy(m: Mnt)
  {
    m.used == {0, NOTAG} + (set a | a in m.rpcs :: m.rpcs[a].tag) && |m.free| <= 10
  }

  /** Every request in being is kept, or belongs to a caller. */
  ghost predicate Owned(s: State)
  {
    forall a :: a in s.m.rpcs ==> a in s.m.free || exists p :: 0 <= p < |s.pc| && a in Own(s.pc[p])
  }

  lemma SameTidy(m: Mnt, m': Mnt)
    requires Tidy(m) && m'.used == m.used && m'.free == m.free && m'.rpcs.Keys == m.rpcs.Keys
    requires forall a :: a in m.rpcs ==> m'.rpcs[a].tag == m.rpcs[a].tag
    ensures Tidy(m')
  {
    assert forall a :: a in m'.rpcs <==> a in m.rpcs;
    assert (set a | a in m'.rpcs :: m'.rpcs[a].tag) == (set a | a in m.rpcs :: m.rpcs[a].tag);
  }

  lemma AllocTidy(m: Mnt, c: Choice, flushed: Option<nat>)
    requires Tags(m) && Tidy(m) && CanAlloc(m, c)
    ensures Tidy(Alloc(m, c, flushed))
    ensures forall a :: a in Alloc(m, c, flushed).rpcs ==> a == c.id || a in Alloc(m, c, flushed).free || (a in m.rpcs && a !in m.free)
  {
    hide Tidy, Tags;
    if m.free != [] { AllocKept(m, c, flushed); } else { AllocNew(m, c, flushed); }
  }

  lemma AllocKept(m: Mnt, c: Choice, flushed: Option<nat>)
    requires Tidy(m) && CanAlloc(m, c) && m.free != []
    ensures var m' := Alloc(m, c, flushed); Tidy(m') && forall a :: a in m'.rpcs ==> a == c.id || a in m'.free || (a in m.rpcs && a !in m.free)
  {
    assert m.free == [m.free[0]] + m.free[1..];
    var m' := Alloc(m, c, flushed);
    SameTidy(m.(free := m.free[1..]), m');
  }

  lemma AllocNew(m: Mnt, c: Choice, flushed: Option<nat>)
    requires Tidy(m) && CanAlloc(m, c) && m.free == []
    ensures var m' := Alloc(m, c, flushed); Tidy(m') && forall a :: a in m'.rpcs ==> a == c.id || a in m.rpcs
  {
    var m' := Alloc(m, c, flushed);
    forall a | a in m.rpcs ensures a in m'.rpcs && m'.rpcs[a].tag == m.rpcs[a].tag { }
    assert m'.rpcs[c.id].tag == c.tag;
    forall t | t in (set a | a in m'.rpcs :: m'.rpcs[a].tag) ensures t in m'.used {
      var a :| a in m'.rpcs && m'.rpcs[a].tag == t;
      assert a == c.id || a in m.rpcs;
    }
    forall t | t in m'.used ensures t in {0, NOTAG} + (set a | a in m'.rpcs :: m'.rpcs[a].tag) {
      if t in m.used && t !in {0, NOTAG} {
        var a :| a in m.rpcs && m.rpcs[a].tag == t;
        assert a in m'.rpcs;
      }
    }
  }

  lemma FreeTidy(m: Mnt, id: nat)
    requires Tags(m) && Tidy(m) && id in m.rpcs
    ensures Tidy(Free(m, id))
    ensures forall a :: a in Free(m, id).rpcs ==> a in m.rpcs && (a == id ==> a in Free(m, id).free) && (a in m.free ==> a in Free(m, id).free)
  {
    if |m.free| >= 10 {
      FreeGone(m, Free(m, id), id);
    } else {
      hide Tags;
      SameTidy(m, m);
    }
  }

  lemma FreeGone(m: Mnt, m': Mnt, id: nat)
    requires Tags(m) && Tidy(m) && id in m.rpcs
    requires m' == m.(rpcs := m.rpcs - {id}, used := m.used - {m.rpcs[id].tag})
    ensures Tidy(m')
  {
    assert forall a :: a in m'.rpcs <==> a in m.rpcs && a != id;
    forall t | t in m'.used ensures t in {0, NOTAG} + (set a | a in m'.rpcs :: m'.rpcs[a].tag) {
      if t !in {0, NOTAG} {
        var a :| a in m.rpcs && m.rpcs[a].tag == t;
        assert a in m'.rpcs && m'.rpcs[a].tag == t;
      }
    }
    forall t | t in {0, NOTAG} + (set a | a in m'.rpcs :: m'.rpcs[a].tag) ensures t in m'.used {
      if t !in {0, NOTAG} {
        var a :| a in m'.rpcs && m'.rpcs[a].tag == t;
        assert a in m.rpcs && m.rpcs[a].tag != m.rpcs[id].tag;
      }
    }
  }

  /** Nothing but allocating and freeing changes which requests there are. */
  lemma StepTidy(m: Mnt, p: nat, pc: Pc, c: Choice)
    requires Tags(m) && Tidy(m) && Step(m, p, pc, c).To?
    requires (!pc.Idle? ==> pc.own != [] && pc.own[0] in m.rpcs) && (pc.Returned? ==> |pc.own| == 1)
    ensures var t := Step(m, p, pc, c);
      && Tidy(t.m)
      && forall a :: a in t.m.rpcs ==> a in t.m.free || a in Own(t.pc) || (a in m.rpcs && a !in m.free && a !in Own(pc))
  {
    hide Tidy, Tags;
    if pc.Idle? {
      AllocTidy(m, c, None);
      hide Alloc, CanAlloc;
    } else if pc.Intr? {
      GateTidy(m, p);
      AllocTidy(LeaveGate(m, p), c, Some(pc.own[0]));
      hide Alloc, CanAlloc, LeaveGate;
    } else if pc.Returned? || (pc.FreeNext? && m.rpcs[pc.own[0]].flushed.Some? && |pc.own| > 1) {
      FreeTidy(m, pc.own[0]);
      assert pc.own == [pc.own[0]] + pc.own[1..];
      hide Free;
      FreeStep(m, p, pc, c);
    } else {
      KeepTidy(m, p, pc, c);
    }
  }

  lemma GateTidy(m: Mnt, p: nat)
    requires Tags(m) && Tidy(m)
    ensures var g := LeaveGate(m, p); Tags(g) && Tidy(g) && g.rpcs == m.rpcs && g.free == m.free
  {
    hide FirstAsleep, Tidy, Tags;
    TagsKept(m, LeaveGate(m, p));
    SameTidy(m, LeaveGate(m, p));
  }

  /** A request is freed. */
  lemma FreeStep(m: Mnt, p: nat, pc: Pc, c: Choice)
    requires Step(m, p, pc, c).To? && !pc.Idle? && pc.own != [] && pc.own[0] in m.rpcs
    requires pc.Returned? || (pc.FreeNext? && m.rpcs[pc.own[0]].flushed.Some? && |pc.own| > 1)
    ensures var t := Step(m, p, pc, c); t.m == Free(m, pc.own[0]) && Own(t.pc) == if pc.Returned? then [] else pc.own[1..]
  {
    hide Free;
  }

  /** Any other step. */
  lemma KeepTidy(m: Mnt, p: nat, pc: Pc, c: Choice)
    requires Tidy(m) && Step(m, p, pc, c).To? && !pc.Idle? && !pc.Intr? && !pc.Returned? && pc.own != [] && pc.own[0] in m.rpcs
    requires !(pc.FreeNext? && m.rpcs[pc.own[0]].flushed.Some? && |pc.own| > 1)
    ensures var t := Step(m, p, pc, c); Tidy(t.m) && t.m.rpcs.Keys == m.rpcs.Keys && t.m.free == m.free && Own(t.pc) == Own(pc)
  {
    hide Tidy, FirstAsleep, WithTag, Without;
    SameTidy(m, Step(m, p, pc, c).m);
  }

  lemma {:induction false} RunTidy(r: seq<State>, k: nat)
    requires IsRun(r) && k < |r|
    ensures Tidy(r[k].m) && Owned(r[k])
  {
    hide Step, Inv, Tidy, Own;
    if k == 0 {
      NoneTidy(r[0].m);
    } else {
      var p, c := OneStep(r, k);
      var s, t := r[k-1], r[k];
      RunInv(r, k - 1);
      RunTidy(r, k - 1);
      OwnCaller(s, p);
      hide IsRun;
      StepTidy(s.m, p, s.pc[p], c);
      assert t.pc[p] == Step(s.m, p, s.pc[p], c).pc;
      StepOwned(s, t, p);
    }
  }

  lemma StepOwned(s: State, t: State, p: nat)
    requires Owned(s) && p < |s.pc| && |t.pc| == |s.pc| && t.pc == s.pc[p := t.pc[p]]
    requires forall a :: a in t.m.rpcs ==> a in t.m.free || a in Own(t.pc[p]) || (a in s.m.rpcs && a !in s.m.free && a !in Own(s.pc[p]))
    ensures Owned(t)
  {
    hide Own;
    forall a | a in t.m.rpcs && a !in t.m.free ensures exists q :: 0 <= q < |t.pc| && a in Own(t.pc[q]) {
      if a in Own(t.pc[p]) {
      } else {
        var q :| 0 <= q < |s.pc| && a in Own(s.pc[q]);
        assert q != p;
        assert t.pc[q] == s.pc[q];
      }
    }
  }

  lemma NoneTidy(m: Mnt)
    requires m == Mnt(map[], [], {0, NOTAG}, [], None, {})
    ensures Tidy(m)
  {
    assert (set a | a in m.rpcs :: m.rpcs[a].tag) == {};
  }

  /**
   * In every run just the tags of the requests in being are in use, and each of these requests is some caller's or
   * on the free list, which holds ten at most: with every caller idle no other tag is taken.
   */
  lemma NothingLeaks(r: seq<State>, k: nat)
    requires IsRun(r) && k < |r|
    ensures forall t :: t in r[k].m.used <==> t == 0 || t == NOTAG || exists a :: a in r[k].m.rpcs && r[k].m.rpcs[a].tag == t
    ensures forall a :: a in r[k].m.rpcs <==> a in r[k].m.free || exists p :: 0 <= p < |r[k].pc| && a in Own(r[k].pc[p])
    ensures |r[k].m.free| <= 10
    ensures (forall p :: 0 <= p < |r[k].pc| ==> r[k].pc[p].Idle?) ==> forall a :: a in r[k].m.rpcs <==> a in r[k].m.free
  {
    RunTidy(r, k);
    RunInv(r, k);
    InvMembers(r[k]);
    hide Inv, IsRun;
  }

  lemma InvMembers(s: State)
    requires Inv(s)
    ensures forall a :: a in s.m.free ==> a in s.m.rpcs
    ensures forall p, a :: 0 <= p < |s.pc| && a in Own(s.pc[p]) ==> a in s.m.rpcs
  {
    forall p, a | 0 <= p < |s.pc| && a in Own(s.pc[p]) ensures a in s.m.rpcs {
      assert Caller(s.m, p, s.pc[p]);
    }
  }

  // How mountio ends.

  /** After mountio's loop: what it will tell its caller is settled. */
  predicate Ending(pc: Pc)
  {
    pc.Finish? || pc.FreeMark? || pc.FreeRm? || pc.FreeNext? || pc.Returned?
  }

  /** Since it was last idle the process has failed to write or to read. */
  ghost predicate FailedSince(r: seq<State>, k: nat, p: nat)
    requires k < |r|
  {
    p < |r[k].pc| && !r[k].pc[p].Idle? && (r[k].pc[p].Fail? || (k > 0 && FailedSince(r, k - 1, p)))
  }

  /** Since it was last idle the process has been interrupted. */
  ghost predicate InterruptedSince(r: seq<State>, k: nat, p: nat)
    requires k < |r|
  {
    p < |r[k].pc| && !r[k].pc[p].Idle? && (r[k].pc[p].Intr? || (k > 0 && InterruptedSince(r, k - 1, p)))
  }

  /** The ways from one place to the next. */
  lemma Ways(m: Mnt, p: nat, pc: Pc, c: Choice)
    requires Step(m, p, pc, c).To? && (!pc.Idle? ==> pc.own != [])
    ensures var d := Step(m, p, pc, c).pc;
      && (Ending(d) ==> pc.Fail? || pc.Wait? || pc.Read? || Ending(pc))
      && (Ending(d) && pc.Fail? ==> !d.ok) && (Ending(d) && (pc.Wait? || pc.Read?) ==> d.ok) && (Ending(d) && Ending(pc) ==> d.ok == pc.ok)
      && (Ending(pc) ==> Ending(d) || d.Idle?) && (pc.Fail? ==> Ending(d))
      && (!pc.Idle? && !pc.Intr? && !Ending(pc) ==> Own(d) == Own(pc))
  {
    hide FirstAsleep, WithTag, Without, CanAlloc;
  }

  /** What a state of a run and the one before it have in common. */
  lemma OneStep(r: seq<State>, k: nat) returns (p: nat, c: Choice)
    requires IsRun(r) && 0 < k < |r|
    ensures var s := r[k-1];
      && p < |s.pc| && Step(s.m, p, s.pc[p], c).To?
      && r[k] == State(Step(s.m, p, s.pc[p], c).m, s.pc[p := Step(s.m, p, s.pc[p], c).pc])
  {
    hide Step;
    assert Follows(r[k-1], r[k-1+1]);
    p :| Next(r[k-1], r[k], p);
    c :| Step(r[k-1].m, p, r[k-1].pc[p], c).To? && r[k] == State(Step(r[k-1].m, p, r[k-1].pc[p], c).m, r[k-1].pc[p := Step(r[k-1].m, p, r[k-1].pc[p], c).pc]);
  }

  /** In every run mountio is about to return, and not to raise an error, if and only if it has not failed to write or to read. */
  lemma {:induction false} OkExactly(r: seq<State>, k: nat, p: nat)
    requires IsRun(r) && k < |r| && p < |r[k].pc|
    ensures Ending(r[k].pc[p]) ==> (r[k].pc[p].ok <==> !FailedSince(r, k, p))
    ensures !Ending(r[k].pc[p]) ==> (r[k].pc[p].Fail? <==> FailedSince(r, k, p))
  {
    hide Step, Inv;
    if k > 0 {
      var q, c := OneStep(r, k);
      RunInv(r, k - 1);
      OwnCaller(r[k-1], q);
      OkExactly(r, k - 1, p);
      Ways(r[k-1].m, q, r[k-1].pc[q], c);
    }
  }

  /** Whose reply a request has: once it is done it has a reply with its own tag, until mntflushfree comes to it. */
  ghost predicate Replied(s: State)
  {
    forall p, x :: 0 <= p < |s.pc| && x in Own(s.pc[p]) && x in s.m.rpcs && s.m.rpcs[x].done && !Ending(s.pc[p]) ==> s.m.rpcs[x].rtag == s.m.rpcs[x].tag
  }

  lemma {:induction false} RunReplied(r: seq<State>, k: nat)
    requires IsRun(r) && k < |r|
    ensures Replied(r[k])
  {
    hide Step, Inv;
    if k > 0 {
      var q, c := OneStep(r, k);
      RunInv(r, k - 1);
      RunReplied(r, k - 1);
      StepReplied(r[k-1], r[k], q, c);
    }
  }

  lemma StepReplied(s: State, t: State, p: nat, c: Choice)
    requires Inv(s) && Replied(s) && p < |s.pc| && Step(s.m, p, s.pc[p], c).To?
    requires t == State(Step(s.m, p, s.pc[p], c).m, s.pc[p := Step(s.m, p, s.pc[p], c).pc])
    ensures Replied(t)
  {
    OwnCaller(s, p);
    InvQueue(s);
    StepEffects(s.m, p, s.pc[p], c);
    hide Step, Inv, Caller, Tags, Distinct, QueueUsed;
    forall q, x | 0 <= q < |t.pc| && x in Own(t.pc[q]) && x in t.m.rpcs && t.m.rpcs[x].done && !Ending(t.pc[q])
      ensures t.m.rpcs[x].rtag == t.m.rpcs[x].tag {
      if q != p {
        NotMine(s, p, q, x);
      } else {
        OwnReplied(s, p, c, x);
      }
    }
  }

  /** A step of the process itself, not yet in mntflushfree. */
  lemma OwnReplied(s: State, p: nat, c: Choice, x: nat)
    requires Inv(s) && Replied(s) && p < |s.pc| && Step(s.m, p, s.pc[p], c).To?
    requires var t := Step(s.m, p, s.pc[p], c); x in Own(t.pc) && x in t.m.rpcs && t.m.rpcs[x].done && !Ending(t.pc)
    ensures var t := Step(s.m, p, s.pc[p], c); t.m.rpcs[x].rtag == t.m.rpcs[x].tag
  {
    var m, pc := s.m, s.pc[p];
    hide Inv, Step, Caller, Ending;
    OwnCaller(s, p);
    EndingStays(m, p, pc, c);
    Ways(m, p, pc, c);
    assert !Ending(pc);
    if pc.Mux? {
      MuxReplied(m, p, pc, c, x);
    } else if pc.Intr? || pc.Idle? {
      AllocReplied(m, p, pc, c, x);
    } else {
      KeepReplied(m, p, pc, c, x);
    }
  }

  lemma EndingStays(m: Mnt, p: nat, pc: Pc, c: Choice)
    requires Step(m, p, pc, c).To? && (!pc.Idle? ==> pc.own != [])
    ensures var d := Step(m, p, pc, c).pc; Own(d) != [] && !Ending(d) ==> !Ending(pc)
    ensures pc.Idle? || pc.Intr? || pc.Mux? ==> !Ending(pc)
  {
    hide Step;
    Ways(m, p, pc, c);
  }

  lemma MuxReplied(m: Mnt, p: nat, pc: Pc, c: Choice, x: nat)
    requires pc.Mux? && Step(m, p, pc, c).To? && pc.own != [] && pc.own[0] in m.rpcs && x in pc.own
    requires forall y :: y in pc.own && y in m.rpcs && m.rpcs[y].done ==> m.rpcs[y].rtag == m.rpcs[y].tag
    ensures var t := Step(m, p, pc, c); x in t.m.rpcs && t.m.rpcs[x].done ==> t.m.rpcs[x].rtag == t.m.rpcs[x].tag
  {
    WithTagFacts(m, m.queue, m.rpcs[pc.own[0]].rtag);
    hide WithTag, Without;
  }

  lemma AllocReplied(m: Mnt, p: nat, pc: Pc, c: Choice, x: nat)
    requires (pc.Intr? || pc.Idle?) && Step(m, p, pc, c).To? && (pc.Intr? ==> pc.own != [] && pc.own[0] in m.rpcs)
    requires forall y :: y in Own(pc) && y in m.rpcs && m.rpcs[y].done ==> m.rpcs[y].rtag == m.rpcs[y].tag
    requires x in Own(Step(m, p, pc, c).pc)
    ensures var t := Step(m, p, pc, c); x in t.m.rpcs && t.m.rpcs[x].done ==> t.m.rpcs[x].rtag == t.m.rpcs[x].tag
  {
    if pc.Intr? { AllocShape(LeaveGate(m, p), c, Some(pc.own[0])); } else { AllocShape(m, c, None); }
    hide Alloc, CanAlloc, FirstAsleep;
  }

  lemma KeepReplied(m: Mnt, p: nat, pc: Pc, c: Choice, x: nat)
    requires !pc.Idle? && !pc.Intr? && !pc.Mux? && !Ending(pc) && Step(m, p, pc, c).To? && pc.own != [] && pc.own[0] in m.rpcs && x in pc.own
    requires pc.Reading? ==> !m.rpcs[pc.own[0]].done
    requires forall y :: y in pc.own && y in m.rpcs && m.rpcs[y].done ==> m.rpcs[y].rtag == m.rpcs[y].tag
    ensures var t := Step(m, p, pc, c); x in t.m.rpcs && t.m.rpcs[x].done ==> t.m.rpcs[x].rtag == t.m.rpcs[x].tag
  {
    hide FirstAsleep;
  }

  /** A caller's only request, once mountio has left its loop with it answered. */
  predicate Answers(m: Mnt, pc: Pc)
  {
    !pc.Idle? ==> |pc.own| == 1 && (Ending(pc) && pc.ok ==>
      pc.own[0] in m.rpcs && m.rpcs[pc.own[0]].done && m.rpcs[pc.own[0]].rtag == m.rpcs[pc.own[0]].tag)
  }

  lemma StepAnswers(s: State, p: nat, c: Choice)
    requires Inv(s) && Replied(s) && p < |s.pc| && Step(s.m, p, s.pc[p], c).To? && Answers(s.m, s.pc[p]) && !s.pc[p].Intr?
    ensures var t := Step(s.m, p, s.pc[p], c); Answers(t.m, t.pc)
  {
    var m, pc := s.m, s.pc[p];
    OwnCaller(s, p);
    if !pc.Idle? { assert pc.own[0] in Own(pc); }
    hide Inv, Tags, Distinct, Chain, Sound, FirstAsleep, Without, WithTag, CanAlloc, Free;
  }

  lemma {:induction false} Uninterrupted(r: seq<State>, k: nat, p: nat)
    requires IsRun(r) && k < |r| && p < |r[k].pc| && !InterruptedSince(r, k, p)
    ensures Answers(r[k].m, r[k].pc[p])
  {
    hide Step, Inv, Answers;
    if k == 0 {
      assert Answers(r[0].m, r[0].pc[p]) by { IdleAnswers(r[0].m, r[0].pc[p]); }
    } else {
      var q, c := OneStep(r, k);
      RunInv(r, k - 1);
      RunReplied(r, k - 1);
      if !r[k-1].pc[p].Idle? && InterruptedSince(r, k - 1, p) {
        assert r[k].pc[p].Idle?;
        IdleAnswers(r[k].m, r[k].pc[p]);
      } else {
        Uninterrupted(r, k - 1, p);
        if q == p { StepAnswers(r[k-1], p, c); } else { OtherAnswers(r[k-1], r[k], q, c, p); }
      }
    }
  }

  lemma IdleAnswers(m: Mnt, pc: Pc)
    requires pc.Idle?
    ensures Answers(m, pc)
  {
  }

  /** What was answered stays so while others step. */
  lemma OtherAnswers(s: State, t: State, p: nat, c: Choice, q: nat)
    requires Inv(s) && p < |s.pc| && q < |s.pc| && q != p && Step(s.m, p, s.pc[p], c).To? && Answers(s.m, s.pc[q])
    requires t == State(Step(s.m, p, s.pc[p], c).m, s.pc[p := Step(s.m, p, s.pc[p], c).pc])
    ensures Answers(t.m, t.pc[q])
  {
    OwnCaller(s, p);
    InvQueue(s);
    StepEffects(s.m, p, s.pc[p], c);
    hide Step, Caller, Tags, Distinct, QueueUsed;
    if !s.pc[q].Idle? {
      var x := s.pc[q].own[0];
      assert x in Own(s.pc[q]);
      NotMine(s, p, q, x);
      hide Inv;
    }
  }

  /** In every run a mountio that ends with neither a failure nor an interruption returns normally, with the reply of its own tag. */
  lemma ReturnsNormally(r: seq<State>, k: nat, p: nat)
    requires IsRun(r) && k < |r| && p < |r[k].pc| && r[k].pc[p].Returned? && !FailedSince(r, k, p) && !InterruptedSince(r, k, p)
    ensures r[k].pc[p].ok && |r[k].pc[p].own| == 1
    ensures var x := r[k].pc[p].own[0]; x in r[k].m.rpcs && x !in r[k].m.queue && r[k].m.rpcs[x].rtag == r[k].m.rpcs[x].tag
  {
    OkExactly(r, k, p);
    ReturnsAnswered(r, k, p);
    Uninterrupted(r, k, p);
  }

  // The reader's role is handed on.

  /** A process that sleeps at a, or has been woken there, with the request a not answered. */
  predicate SleepsAt(m: Mnt, pc: Pc, a: nat)
  {
    pc.Wait? && pc.own != [] && pc.own[0] == a && a in m.rpcs && !m.rpcs[a].done
  }

  ghost predicate Sleepers(s: State)
  {
    forall a :: a in s.m.asleep ==> exists p :: 0 <= p < |s.pc| && SleepsAt(s.m, s.pc[p], a)
  }

  /** A process on its way to the gate: its request is not answered, and it does not sleep. */
  predicate OnDuty(m: Mnt, pc: Pc)
  {
    || pc.Gate? || pc.Intr? || ((pc.Queue? || pc.Send?) && |pc.own| > 1)
    || ((pc.Rest? || pc.Wait?) && pc.own != [] && pc.own[0] in m.rpcs && !m.rpcs[pc.own[0]].done && pc.own[0] !in m.asleep)
  }

  /** While somebody sleeps either there is a reader or a process is on its way to the gate. */
  ghost predicate HandedOn(s: State)
  {
    s.m.rip.None? && s.m.asleep != {} ==> exists p :: 0 <= p < |s.pc| && OnDuty(s.m, s.pc[p])
  }

  /** The process p cannot send its flush, while nobody reads. */
  predicate GivesUp(s: State, t: State, p: nat)
  {
    p < |s.pc| && p < |t.pc| && s.m.rip.None? && s.pc[p].Send? && |s.pc[p].own| > 1 && t.pc[p].Fail?
  }

  lemma {:induction false} FirstAsleepFacts(m: Mnt, queue: seq<nat>)
    ensures var r := FirstAsleep(m, queue);
      && (r.Some? ==> r.value in queue && r.value in m.asleep && r.value in m.rpcs && !m.rpcs[r.value].done)
      && (r.None? ==> forall a :: a in queue && a in m.rpcs && !m.rpcs[a].done ==> a !in m.asleep)
  {
    if queue != [] {
      FirstAsleepFacts(m, queue[1..]);
      assert forall a :: a in queue <==> a == queue[0] || a in queue[1..];
    }
  }

  /** What a step does to the sleepers. */
  lemma AsleepAfter(m: Mnt, p: nat, pc: Pc, c: Choice)
    requires Step(m, p, pc, c).To? && (!pc.Idle? ==> pc.own != [] && pc.own[0] in m.rpcs)
    ensures var t := Step(m, p, pc, c);
      && (pc.Rest? && m.rip.Some? && t.pc.Wait? && !m.rpcs[pc.own[0]].done ==>
          t.m.asleep == m.asleep + {pc.own[0]} && t.pc.own == pc.own && t.m.rpcs == m.rpcs)
      && (!(pc.Rest? && m.rip.Some? && t.pc.Wait? && !m.rpcs[pc.own[0]].done) ==> t.m.asleep <= m.asleep)
      && (pc.Wait? ==> pc.own[0] !in t.m.asleep)
  {
    hide FirstAsleep, WithTag, Without, CanAlloc;
  }

  /** Whoever still sleeps has not been answered. */
  lemma StillUndone(m: Mnt, p: nat, pc: Pc, c: Choice, x: nat)
    requires Tags(m) && Distinct(m.queue) && QueueUsed(m) && Caller(m, p, pc) && Step(m, p, pc, c).To?
    requires x in m.rpcs && x !in m.free && x !in Own(pc) && !m.rpcs[x].done
    requires x in Step(m, p, pc, c).m.asleep
    ensures var t := Step(m, p, pc, c); x in t.m.rpcs && !t.m.rpcs[x].done
  {
    hide Tags, Distinct, Caller, QueueUsed, Step;
    if pc.Mux? {
      MuxAsleep(m, p, pc, c, x);
    } else {
      StepEffects(m, p, pc, c);
      if Answered(m, Step(m, p, pc, c).m, x) {
        StaysQueued(m, p, pc, c, x);
      }
    }
  }

  /** mountmux wakes the process whose request it answers. */
  lemma MuxAsleep(m: Mnt, p: nat, pc: Pc, c: Choice, x: nat)
    requires pc.Mux? && Step(m, p, pc, c).To? && x in m.rpcs && !m.rpcs[x].done && x in Step(m, p, pc, c).m.asleep
    ensures var t := Step(m, p, pc, c); x in t.m.rpcs && !t.m.rpcs[x].done
  {
    hide FirstAsleep, WithTag, Without;
  }

  /** Only mountmux takes the request of another process off the queue. */
  lemma StaysQueued(m: Mnt, p: nat, pc: Pc, c: Choice, x: nat)
    requires Distinct(m.queue) && Step(m, p, pc, c).To? && !pc.Mux? && x in m.queue && x !in Own(pc)
    ensures x in Step(m, p, pc, c).m.queue
  {
    hide FirstAsleep, Distinct, CanAlloc;
    if !pc.Idle? && pc.own != [] {
      WithoutFacts(m.queue, pc.own[0]);
      hide Without;
      assert pc.own[0] in Own(pc);
    }
  }

  lemma StepSleepers(s: State, t: State, p: nat, c: Choice)
    requires Inv(s) && Sleepers(s) && p < |s.pc| && Step(s.m, p, s.pc[p], c).To?
    requires t == State(Step(s.m, p, s.pc[p], c).m, s.pc[p := Step(s.m, p, s.pc[p], c).pc])
    ensures Sleepers(t)
  {
    var pc := s.pc[p];
    assert Caller(s.m, p, pc);
    NotEmptyOwn(s.m, p, pc);
    InvQueue(s);
    hide Step, Caller, Tags, Distinct, Apart, QueueUsed;
    AsleepAfter(s.m, p, pc, c);
    forall a | a in t.m.asleep ensures exists q :: 0 <= q < |t.pc| && SleepsAt(t.m, t.pc[q], a) {
      if a in s.m.asleep {
        var w :| 0 <= w < |s.pc| && SleepsAt(s.m, s.pc[w], a);
        assert w != p;
        assert s.pc[w].own[0] in Own(s.pc[w]);
        NotMine(s, p, w, a);
        StillUndone(s.m, p, pc, c, a);
        assert SleepsAt(t.m, t.pc[w], a);
      } else {
        assert SleepsAt(t.m, t.pc[p], a);
      }
    }
  }

  lemma NotEmptyOwn(m: Mnt, p: nat, pc: Pc)
    requires Caller(m, p, pc)
    ensures !pc.Idle? ==> pc.own != [] && pc.own[0] in m.rpcs
  {
  }

  /** A process on its way to the gate stays so while nobody takes it, unless it gives up. */
  lemma StaysOnDuty(m: Mnt, p: nat, pc: Pc, c: Choice)
    requires OnDuty(m, pc) && Step(m, p, pc, c).To? && m.rip.None? && Step(m, p, pc, c).m.rip.None?
    requires !pc.Idle? && pc.own != [] && pc.own[0] in m.rpcs
    ensures var t := Step(m, p, pc, c); OnDuty(t.m, t.pc) || (pc.Send? && |pc.own| > 1 && t.pc.Fail? && t.m == m)
  {
    hide FirstAsleep, WithTag, Without, CanAlloc;
  }

  /** One that is not affected by another's step. */
  lemma OtherOnDuty(s: State, t: State, p: nat, c: Choice, w: nat)
    requires Inv(s) && p < |s.pc| && w < |s.pc| && w != p && Step(s.m, p, s.pc[p], c).To? && OnDuty(s.m, s.pc[w]) && s.m.rip.None?
    requires t == State(Step(s.m, p, s.pc[p], c).m, s.pc[p := Step(s.m, p, s.pc[p], c).pc])
    ensures OnDuty(t.m, t.pc[w])
  {
    var pc, o := s.pc[p], s.pc[w];
    assert Caller(s.m, p, pc);
    NotEmptyOwn(s.m, p, pc);
    InvQueue(s);
    StepEffects(s.m, p, pc, c);
    AsleepAfter(s.m, p, pc, c);
    hide Step, Caller, Tags, Distinct, Apart, QueueUsed;
    if (o.Rest? || o.Wait?) && o.own != [] {
      assert o.own[0] in Own(o);
      NotMine(s, p, w, o.own[0]);
    }
  }

  /** Leaving the gate, by a step of the process that has it. */
  lemma GateStep(m: Mnt, p: nat, pc: Pc, c: Choice)
    requires Step(m, p, pc, c).To? && m.rip.Some? && Step(m, p, pc, c).m.rip.None?
    ensures !pc.Idle? && m.rip == Some(p) && (pc.Read? || pc.Intr? || pc.Fail?)
    ensures var t := Step(m, p, pc, c); if pc.Intr? then t.pc.Queue? && t.pc.own == [c.id] + pc.own && pc.own != [] else t.m == LeaveGate(m, p)
  {
    hide FirstAsleep, WithTag, Without, CanAlloc;
  }

  lemma GateLeft(s: State, t: State, p: nat)
    requires Inv(s) && Sleepers(s) && p < |s.pc| == |t.pc| && s.m.rip == Some(p) && !s.pc[p].Wait?
    requires t.m == LeaveGate(s.m, p) && t.pc == s.pc[p := t.pc[p]] && t.m.asleep != {}
    ensures exists w :: 0 <= w < |t.pc| && OnDuty(t.m, t.pc[w])
  {
    hide Inv, FirstAsleep;
    FirstAsleepFacts(s.m, s.m.queue);
    var a :| a in t.m.asleep;
    InQueue(s, a);
    var q := FirstAsleep(s.m, s.m.queue).value;
    var w :| 0 <= w < |s.pc| && SleepsAt(s.m, s.pc[w], q);
    assert t.pc[w] == s.pc[w] && t.m.rpcs == s.m.rpcs && q !in t.m.asleep;
    assert OnDuty(t.m, t.pc[w]);
  }

  lemma InQueue(s: State, a: nat)
    requires Inv(s) && Sleepers(s) && a in s.m.asleep
    ensures a in s.m.queue && a in s.m.rpcs && !s.m.rpcs[a].done
  {
    var w :| 0 <= w < |s.pc| && SleepsAt(s.m, s.pc[w], a);
    assert Caller(s.m, w, s.pc[w]);
    assert Sound(s.m, s.pc[w], Own(s.pc[w])[0]);
  }

  lemma StepHandedOn(s: State, t: State, p: nat, c: Choice)
    requires Inv(s) && Sleepers(s) && HandedOn(s) && p < |s.pc| && Step(s.m, p, s.pc[p], c).To?
    requires t == State(Step(s.m, p, s.pc[p], c).m, s.pc[p := Step(s.m, p, s.pc[p], c).pc])
    ensures HandedOn(t) <==>
      !(GivesUp(s, t, p) && s.m.asleep != {} && forall q :: 0 <= q < |s.pc| && q != p ==> !OnDuty(s.m, s.pc[q]))
  {
    var pc := s.pc[p];
    assert Caller(s.m, p, pc);
    NotEmptyOwn(s.m, p, pc);
    hide Step, Caller, Tags, Distinct, Apart, LeaveGate, OnDuty, Sleepers, Inv;
    if GivesUp(s, t, p) {
      SendFails(s.m, p, pc, c);
      if w :| 0 <= w < |s.pc| && w != p && OnDuty(s.m, s.pc[w]) { assert t.pc[w] == s.pc[w]; }
      assert forall q :: 0 <= q < |t.pc| && q != p ==> t.pc[q] == s.pc[q];
    } else if t.m.rip.None? && t.m.asleep != {} {
      if s.m.rip.None? {
        FreeBefore(s, t, p, c);
      } else {
        GateStep(s.m, p, pc, c);
        if pc.Intr? {
          assert OnDuty(t.m, t.pc[p]) by { QueuedOnDuty(t.m, t.pc[p]); }
        } else {
          GateLeft(s, t, p);
        }
      }
    }
  }

  lemma QueuedOnDuty(m: Mnt, pc: Pc)
    requires pc.Queue? && |pc.own| > 1
    ensures OnDuty(m, pc)
  {
  }

  lemma SendFails(m: Mnt, p: nat, pc: Pc, c: Choice)
    requires Step(m, p, pc, c).To? && pc.Send? && Step(m, p, pc, c).pc.Fail?
    ensures Step(m, p, pc, c).m == m && !OnDuty(m, Step(m, p, pc, c).pc)
  {
  }

  lemma FreeBefore(s: State, t: State, p: nat, c: Choice)
    requires Inv(s) && HandedOn(s) && p < |s.pc| && Step(s.m, p, s.pc[p], c).To? && !GivesUp(s, t, p)
    requires t == State(Step(s.m, p, s.pc[p], c).m, s.pc[p := Step(s.m, p, s.pc[p], c).pc])
    requires s.m.rip.None? && t.m.rip.None? && t.m.asleep != {}
    ensures exists w :: 0 <= w < |t.pc| && OnDuty(t.m, t.pc[w])
  {
    hide Step, Caller, Tags, Distinct, Apart, Inv, OnDuty;
    OwnCaller(s, p);
    FewerAsleep(s.m, p, s.pc[p], c);
    var w :| 0 <= w < |s.pc| && OnDuty(s.m, s.pc[w]);
    if w == p {
      if s.pc[p].Idle? { IdleOffDuty(s.m, s.pc[p]); }
      StaysOnDuty(s.m, p, s.pc[p], c);
      assert t.pc[p] == Step(s.m, p, s.pc[p], c).pc;
      assert OnDuty(t.m, t.pc[p]);
    } else {
      OtherOnDuty(s, t, p, c, w);
    }
  }

  lemma OwnCaller(s: State, p: nat)
    requires Inv(s) && p < |s.pc|
    ensures Caller(s.m, p, s.pc[p]) && (!s.pc[p].Idle? ==> s.pc[p].own != [] && s.pc[p].own[0] in s.m.rpcs)
    ensures s.pc[p].Reading? ==> !s.m.rpcs[s.pc[p].own[0]].done
    ensures s.pc[p].Returned? ==> |s.pc[p].own| == 1
    ensures Tags(s.m)
  {
    hide Tags, Distinct, Apart, Chain, Sound;
    assert Caller(s.m, p, s.pc[p]);
  }

  lemma FewerAsleep(m: Mnt, p: nat, pc: Pc, c: Choice)
    requires Step(m, p, pc, c).To? && m.rip.None? && (!pc.Idle? ==> pc.own != [] && pc.own[0] in m.rpcs)
    ensures Step(m, p, pc, c).m.asleep <= m.asleep
  {
    hide Step;
    AsleepAfter(m, p, pc, c);
  }

  lemma IdleOffDuty(m: Mnt, pc: Pc)
    requires pc.Idle?
    ensures !OnDuty(m, pc)
  {
  }

  ghost predicate SomebodyGivesUp(s: State, t: State)
  {
    exists p: nat :: GivesUp(s, t, p)
  }

  /** No flush fails to be sent while nobody reads. */
  ghost predicate NobodyGivesUp(r: seq<State>)
  {
    forall k :: 0 <= k < |r| - 1 ==> !SomebodyGivesUp(r[k], r[k+1])
  }

  lemma {:induction false} RunSleepers(r: seq<State>, k: nat)
    requires IsRun(r) && k < |r|
    ensures Sleepers(r[k]) && (NobodyGivesUp(r) ==> HandedOn(r[k]))
  {
    hide Inv, Step, Sleepers, OnDuty, GivesUp;
    if k == 0 {
      assert Sleepers(r[0]) by { NoneAsleep(r[0]); }
    } else {
      RunSleepers(r, k - 1);
      RunInv(r, k - 1);
      assert Follows(r[k-1], r[k]);
      var p: nat :| Next(r[k-1], r[k], p);
      var s := r[k-1];
      var c :| Step(s.m, p, s.pc[p], c).To? && r[k] == State(Step(s.m, p, s.pc[p], c).m, s.pc[p := Step(s.m, p, s.pc[p], c).pc]);
      StepSleepers(s, r[k], p, c);
      if NobodyGivesUp(r) {
        assert !SomebodyGivesUp(r[k-1], r[k-1+1]);
        StepHandedOn(s, r[k], p, c);
      }
    }
  }

  lemma NoneAsleep(s: State)
    requires s.m.asleep == {}
    ensures Sleepers(s)
  {
  }

  /**
   * A process sleeps only while its request is unanswered; and then, in a run in which no flush fails to be sent while
   * nobody reads, some process reads or is on its way to the gate.
   */
  lemma ReaderHandedOn(r: seq<State>, k: nat, p: nat)
    requires IsRun(r) && k < |r| && p < |r[k].pc| && r[k].pc[p].Wait? && |r[k].pc[p].own| > 0 && r[k].pc[p].own[0] in r[k].m.asleep
    ensures var x := r[k].pc[p].own[0]; x in r[k].m.rpcs && !r[k].m.rpcs[x].done && x in r[k].m.queue
    ensures NobodyGivesUp(r) ==> r[k].m.rip.Some? || exists q :: 0 <= q < |r[k].pc| && OnDuty(r[k].m, r[k].pc[q])
  {
    RunSleepers(r, k);
    RunInv(r, k);
    hide Inv, OnDuty;
    InQueue(r[k], r[k].pc[p].own[0]);
  }

  /** The process p cannot send its flush while nobody reads, some sleep, and no other process is on its way to the gate. */
  ghost predicate StrandsBy(s: State, t: State, p: nat)
  {
    GivesUp(s, t, p) && s.m.asleep != {} && forall q :: 0 <= q < |s.pc| && q != p ==> !OnDuty(s.m, s.pc[q])
  }

  ghost predicate Strands(s: State, t: State)
  {
    exists p: nat :: StrandsBy(s, t, p)
  }

  lemma StepStrands(r: seq<State>, k: nat)
    requires IsRun(r) && k + 1 < |r| && HandedOn(r[k])
    ensures HandedOn(r[k+1]) <==> !Strands(r[k], r[k+1])
  {
    hide Inv, Step, Sleepers, OnDuty, HandedOn;
    RunSleepers(r, k);
    RunInv(r, k);
    assert Follows(r[k], r[k+1]);
    var s, t := r[k], r[k+1];
    var p: nat :| Next(s, t, p);
    var c :| Step(s.m, p, s.pc[p], c).To? && t == State(Step(s.m, p, s.pc[p], c).m, s.pc[p := Step(s.m, p, s.pc[p], c).pc]);
    StepHandedOn(s, t, p, c);
    assert forall q: nat :: GivesUp(s, t, q) ==> q == p;
    assert Strands(s, t) <==> StrandsBy(s, t, p);
  }

  /** In a run somebody reads or is on the way to the gate whenever some sleep, if and only if no step strands them. */
  lemma {:induction false} HandedOnExactly(r: seq<State>, n: nat)
    requires IsRun(r) && n < |r|
    ensures (forall k :: 0 <= k <= n ==> HandedOn(r[k])) <==> (forall k :: 0 <= k < n ==> !Strands(r[k], r[k+1]))
  {
    hide HandedOn, Strands, Follows;
    if n == 0 {
      assert HandedOn(r[0]) by { AwakeAtFirst(r[0]); }
    } else {
      HandedOnExactly(r, n - 1);
      if HandedOn(r[n-1]) { StepStrands(r, n - 1); }
      assert r[n-1+1] == r[n];
    }
  }

  lemma AwakeAtFirst(s: State)
    requires Init(s)
    ensures HandedOn(s)
  {
  }

  // A run in which the role is lost: a waiter is woken for it, is interrupted, and cannot send its flush.

  function Op(n: nat): Choice
  {
    Choice(n, 0, 0, 0, Other)
  }

  function New(id: nat, tag: nat): Choice
  {
    Choice(0, id, tag, 0, Other)
  }

  lemma Extend(r: seq<State>, p: nat, c: Choice, m: Mnt, d: Pc) returns (r': seq<State>)
    requires IsRun(r) && p < |r[|r|-1].pc| && Step(r[|r|-1].m, p, r[|r|-1].pc[p], c) == To(m, d)
    ensures IsRun(r') && r'[|r'|-1] == State(m, r[|r|-1].pc[p := d])
  {
    hide Step, Init;
    var s := r[|r|-1];
    var t := State(m, s.pc[p := d]);
    r' := r + [t];
    assert Next(s, t, p);
    forall k | 0 <= k < |r'| - 1 ensures Follows(r'[k], r'[k+1]) {
      if k < |r| - 1 { assert Follows(r[k], r[k+1]); }
    }
  }

  /** A process that finds the gate taken goes to sleep. */
  lemma GoesToSleep(r: seq<State>, p: nat, id: nat, tag: nat) returns (r': seq<State>)
    requires IsRun(r) && p < |r[|r|-1].pc| && r[|r|-1].pc[p] == Idle
    requires var m := r[|r|-1].m; m.rip.Some? && m.free == [] && id !in m.rpcs && tag !in m.used && 0 < tag < NOTAG
    ensures var s := r[|r|-1]; var m := s.m;
      IsRun(r') && r'[|r'|-1] == State(
        Mnt(m.rpcs[id := Rpc(tag, false, 0, Other, None)], [], m.used + {tag}, [id] + m.queue, m.rip, m.asleep + {id}), s.pc[p := Wait([id])])
  {
    var s := r[|r|-1];
    var own, m1 := [id], Alloc(s.m, New(id, tag), None);
    var m2 := m1.(queue := own + m1.queue);
    var a := Extend(r, p, New(id, tag), m1, Queue(own));
    a := Extend(a, p, Op(0), m2, Send(own));
    a := Extend(a, p, Op(0), m2, Gate(own));
    a := Extend(a, p, Op(0), m2, Rest(own));
    r' := Extend(a, p, Op(0), m2.(asleep := m2.asleep + {id}), Wait(own));
    assert r'[|r'|-1].pc == s.pc[p := Wait([id])];
  }

  /** The first process reads; its request is 10. */
  lemma ReaderStarts() returns (r: seq<State>)
    ensures IsRun(r) && r[|r|-1] == State(
      Mnt(map[10 := Rpc(1, false, 0, Other, None)], [], {0, NOTAG, 1}, [10], Some(0), {}), [Reading([10]), Idle, Idle])
  {
    var m0 := Mnt(map[], [], {0, NOTAG}, [], None, {});
    var own, m1 := [10], Alloc(m0, New(10, 1), None);
    var m2 := m1.(queue := own);
    var m3 := m2.(rip := Some(0));
    r := [State(m0, [Idle, Idle, Idle])];
    r := Extend(r, 0, New(10, 1), m1, Queue(own));
    r := Extend(r, 0, Op(0), m2, Send(own));
    r := Extend(r, 0, Op(0), m2, Gate(own));
    r := Extend(r, 0, Op(0), m3, Read(own));
    r := Extend(r, 0, Op(0), m3, Reading(own));
  }

  const ThreeRpcs: map<nat, Rpc> :=
    map[10 := Rpc(1, false, 0, Other, None), 11 := Rpc(2, false, 0, Other, None), 12 := Rpc(3, false, 0, Other, None)]

  const AllAtGate: Mnt := Mnt(ThreeRpcs, [], {0, NOTAG, 1, 2, 3}, [12, 11, 10], Some(0), {11, 12})

  lemma TwoSleep() returns (r: seq<State>)
    ensures IsRun(r) && r[|r|-1] == State(AllAtGate, [Reading([10]), Wait([11]), Wait([12])])
  {
    r := ReaderStarts();
    r := GoesToSleep(r, 1, 11, 2);
    r := GoesToSleep(r, 2, 12, 3);
  }

  /** The reader fails, and the last of the two to sleep is woken for the gate. */
  lemma ReaderFails() returns (r: seq<State>)
    ensures IsRun(r) && r[|r|-1] == State(AllAtGate.(rip := None, asleep := {11}), [Finish([10], false), Wait([11]), Wait([12])])
  {
    r := TwoSleep();
    assert AllAtGate.rpcs[10 := AllAtGate.rpcs[10].(rtag := 0, rtype := Other)] == AllAtGate.rpcs;
    r := Extend(r, 0, Op(2), AllAtGate, Fail([10]));
    var m := AllAtGate.(rip := None, asleep := {11});
    Woken(AllAtGate, m);
    r := Extend(r, 0, Op(0), m, Finish([10], false));
  }

  /** It is interrupted and cannot send its flush: the other one sleeps on, its request is not answered, and nobody reads. */
  lemma RoleLost() returns (r: seq<State>)
    ensures IsRun(r) && r[|r|-1].m.rip.None? && r[|r|-1].m.asleep == {11} && 11 in r[|r|-1].m.queue
    ensures r[|r|-1].pc == [Finish([10], false), Wait([11]), Fail([13, 12])]
    ensures !HandedOn(r[|r|-1])
  {
    r := ReaderFails();
    var m := AllAtGate.(rip := None, asleep := {11});
    assert m.asleep - {12} == m.asleep;
    r := Extend(r, 2, Op(1), m, Intr([12]));
    var m1 := Alloc(m, New(13, 4), Some(12));
    r := Extend(r, 2, New(13, 4), m1, Queue([13] + [12]));
    var m2 := m1.(queue := [13, 12, 11, 10]);
    assert [13] + m1.queue == m2.queue && [13] + [12] == [13, 12];
    r := Extend(r, 2, Op(0), m2, Send([13, 12]));
    r := Extend(r, 2, Op(2), m2, Fail([13, 12]));
  }

  lemma Woken(m: Mnt, m': Mnt)
    requires m.queue == [12, 11, 10] && m.asleep == {11, 12} && m.rip == Some(0) && 12 in m.rpcs && !m.rpcs[12].done
    requires m' == m.(rip := None, asleep := {11})
    ensures LeaveGate(m, 0) == m'
  {
    assert FirstAsleep(m, m.queue) == Some(12);
  }
}
