/**
 * The PendingQ/ReadyQ rendezvous of source/main.c.
 *
 * Each endpoint (HCI events, ACL data in) pairs host buffers waiting for data with data
 * waiting for a buffer. Data is either a message injected by the fake Wiimotes, living in
 * the injection heap, or the content of the one static hand-down buffer the dongle fills.
 * ReadyQ stores *references*: what a hand-down entry stands for is read out of the static
 * buffer only when it is delivered.
 */
module Rendezvous {
  import opened Bytes

  /** What a host buffer receives: the bytes copied into it and the value it is acked with. */
  datatype Payload = Payload(data: seq<byte>, result: int)

  /** An ipcmessage of the host that asks to be filled. */
  datatype HostBuffer = HostBuffer(id: nat, fd: int, size: nat)

  /** An entry of ReadyQ: an injected message in the heap, or the static hand-down buffer. */
  datatype Ready = Injected(addr: nat) | HandDown

  datatype Ack = Ack(buffer: HostBuffer, payload: Payload)

  type Heap = map<nat, seq<byte>>

  /** The queues and static variables of one endpoint. */
  datatype Channel = Channel(
    cap: nat,
    ready: seq<Ready>,
    pending: seq<HostBuffer>,
    handDownPending: bool,
    handDown: Payload)

  /** What happened so far: accepted and refused buffers and messages (with the content they
      had when they were sent), acks given, heap blocks of refused messages, and how many
      hand-downs the dongle still holds. */
  datatype History = History(
    bufs: seq<HostBuffer>,
    msgs: seq<Payload>,
    acks: seq<Ack>,
    refusedBufs: seq<HostBuffer>,
    refusedMsgs: seq<Payload>,
    leaked: set<nat>,
    outstanding: nat)

  datatype Endpoint = Endpoint(c: Channel, h: History)

  // ---------------------------------------------------------------- steps of one endpoint

  predicate Readable(r: Ready, heap: Heap) {
    r.Injected? ==> r.addr in heap
  }

  predicate AllReadable(c: Channel, heap: Heap) {
    forall i :: 0 <= i < |c.ready| ==> Readable(c.ready[i], heap)
  }

  /** The data a ReadyQ entry stands for at this moment. */
  function Resolve(c: Channel, heap: Heap, r: Ready): Payload
    requires Readable(r, heap)
  {
    match r
    case Injected(a) => Payload(heap[a], |heap[a]|)
    case HandDown => c.handDown
  }

  function Contents(c: Channel, heap: Heap): seq<Payload>
    requires AllReadable(c, heap)
  {
    seq(|c.ready|, i requires 0 <= i < |c.ready| => Resolve(c, heap, c.ready[i]))
  }

  /** Delivery: the buffer is filled and acked, an injected message is freed. */
  function CopyAndAck(e: Endpoint, heap: Heap, b: HostBuffer, r: Ready): (Endpoint, Heap)
    requires Readable(r, heap)
  {
    (e.(h := e.h.(acks := e.h.acks + [Ack(b, Resolve(e.c, heap, r))])),
     if r.Injected? then heap - {r.addr} else heap)
  }

  /** A host buffer arrives. */
  function OnPending(e: Endpoint, heap: Heap, b: HostBuffer): (Endpoint, Heap)
    requires AllReadable(e.c, heap)
  {
    if e.c.ready != [] then
      CopyAndAck(Endpoint(e.c.(ready := e.c.ready[1..]), e.h.(bufs := e.h.bufs + [b])),
                 heap, b, e.c.ready[0])
    else if |e.c.pending| < e.c.cap then
      var queued := e.h.(bufs := e.h.bufs + [b]);
      if e.c.handDownPending then
        (Endpoint(e.c.(pending := e.c.pending + [b]), queued), heap)
      else
        (Endpoint(e.c.(pending := e.c.pending + [b], handDownPending := true),
                  queued.(outstanding := e.h.outstanding + 1)), heap)
    else
      (e.(h := e.h.(refusedBufs := e.h.refusedBufs + [b])), heap)
  }

  /** Data arrives. */
  function OnReady(e: Endpoint, heap: Heap, r: Ready): (Endpoint, Heap)
    requires Readable(r, heap)
  {
    var p := Resolve(e.c, heap, r);
    if e.c.pending != [] then
      CopyAndAck(Endpoint(e.c.(pending := e.c.pending[1..]), e.h.(msgs := e.h.msgs + [p])),
                 heap, e.c.pending[0], r)
    else if |e.c.ready| < e.c.cap then
      (Endpoint(e.c.(ready := e.c.ready + [r]), e.h.(msgs := e.h.msgs + [p])), heap)
    else
      (e.(h := e.h.(refusedMsgs := e.h.refusedMsgs + [p],
                    leaked := if r.Injected? then e.h.leaked + {r.addr} else e.h.leaked)), heap)
  }

  /** The dongle answers its hand-down: it has overwritten the static buffer. */
  function OnReply(e: Endpoint, heap: Heap, p: Payload): (Endpoint, Heap)
    requires e.h.outstanding > 0
  {
    OnReady(Endpoint(e.c.(handDownPending := false, handDown := p),
                     e.h.(outstanding := e.h.outstanding - 1)), heap, HandDown)
  }

  // ---------------------------------------------------------------- both endpoints

  datatype Side = Intr | Bulk

  datatype Sys = Sys(intr: Endpoint, bulk: Endpoint, heap: Heap)
  {
    function At(side: Side): Endpoint {
      match side case Intr => intr case Bulk => bulk
    }

    function With(side: Side, r: (Endpoint, Heap)): Sys {
      match side
      case Intr => this.(intr := r.0, heap := r.1)
      case Bulk => this.(bulk := r.0, heap := r.1)
    }
  }

  /** An injection whose allocation fails changes nothing and is not an event. */
  datatype Event =
    | BufferArrives(side: Side, buffer: HostBuffer)
    | Inject(side: Side, addr: nat, data: seq<byte>)
    | DongleReply(side: Side, payload: Payload)

  /** The environment: the heap hands out free blocks, the dongle answers what it was given. */
  predicate Enabled(s: Sys, e: Event) {
    match e
    case BufferArrives(_, _) => true
    case Inject(_, a, _) => a !in s.heap
    case DongleReply(side, _) => s.At(side).h.outstanding > 0
  }

  function Step(s: Sys, e: Event): Sys
    requires AllReadable(s.intr.c, s.heap) && AllReadable(s.bulk.c, s.heap)
    requires Enabled(s, e)
  {
    match e
    case BufferArrives(side, b) => s.With(side, OnPending(s.At(side), s.heap, b))
    case Inject(side, a, data) => s.With(side, OnReady(s.At(side), s.heap[a := data], Injected(a)))
    case DongleReply(side, p) => s.With(side, OnReply(s.At(side), s.heap, p))
  }

  function InitEndpoint(cap: nat): (e: Endpoint)
    ensures EndpointInv(e, map[]) && Addrs(e.c) == {}
  {
    Endpoint(Channel(cap, [], [], false, Payload([], 0)), History([], [], [], [], [], {}, 0))
  }

  const INTR_QUEUE_SIZE := 8
  const BULK_QUEUE_SIZE := 16

  function Init(): (s: Sys)
    ensures Inv(s)
  {
    Sys(InitEndpoint(INTR_QUEUE_SIZE), InitEndpoint(BULK_QUEUE_SIZE), map[])
  }

  // ---------------------------------------------------------------- the invariant

  function Addrs(c: Channel): set<nat> {
    set i | 0 <= i < |c.ready| && c.ready[i].Injected? :: c.ready[i].addr
  }

  function HandDowns(q: seq<Ready>): nat {
    if q == [] then 0 else (if q[0] == HandDown then 1 else 0) + HandDowns(q[1..])
  }

  ghost predicate DistinctAddrs(c: Channel) {
    forall i, j :: 0 <= i < j < |c.ready| && c.ready[i].Injected? ==> c.ready[i] != c.ready[j]
  }

  function AckedBufs(acks: seq<Ack>): seq<HostBuffer> {
    seq(|acks|, i requires 0 <= i < |acks| => acks[i].buffer)
  }

  function AckedMsgs(acks: seq<Ack>): seq<Payload> {
    seq(|acks|, i requires 0 <= i < |acks| => acks[i].payload)
  }

  ghost predicate EndpointInv(e: Endpoint, heap: Heap) {
    && AllReadable(e.c, heap)
    && DistinctAddrs(e.c)
    && (e.c.ready == [] || e.c.pending == [])
    && |e.c.ready| <= e.c.cap && |e.c.pending| <= e.c.cap
    && e.h.bufs == AckedBufs(e.h.acks) + e.c.pending
    && e.h.msgs == AckedMsgs(e.h.acks) + Contents(e.c, heap)
    && e.h.outstanding + HandDowns(e.c.ready) <= 1
    && e.c.handDownPending == (e.h.outstanding == 1)
    && e.h.leaked !! Addrs(e.c)
  }

  /** Two endpoints that share the heap: every live block is queued at, or was refused by, exactly one. */
  ghost predicate PairInv(e: Endpoint, other: Endpoint, heap: Heap) {
    && EndpointInv(e, heap)
    && EndpointInv(other, heap)
    && Addrs(e.c) + e.h.leaked !! Addrs(other.c) + other.h.leaked
    && heap.Keys == Addrs(e.c) + e.h.leaked + Addrs(other.c) + other.h.leaked
  }

  ghost predicate Inv(s: Sys) {
    PairInv(s.intr, s.bulk, s.heap)
  }

  // ---------------------------------------------------------------- preservation

  lemma {:induction false} HandDownsAppend(q: seq<Ready>, r: Ready)
    ensures HandDowns(q + [r]) == HandDowns(q) + if r == HandDown then 1 else 0
  {
    if q == [] {
      assert q + [r] == [r];
    } else {
      assert (q + [r])[1..] == q[1..] + [r];
      HandDownsAppend(q[1..], r);
    }
  }

  lemma {:induction false} NoHandDown(q: seq<Ready>)
    requires HandDowns(q) == 0
    ensures forall i :: 0 <= i < |q| ==> q[i] != HandDown
  {
    if q != [] {
      NoHandDown(q[1..]);
      assert forall i :: 1 <= i < |q| ==> q[i] == q[1..][i - 1];
    }
  }

  /** Blocks another endpoint allocates or frees do not change what this endpoint holds. */
  lemma ForeignHeapChange(e: Endpoint, heap: Heap, heap': Heap)
    requires EndpointInv(e, heap)
    requires forall a :: a in Addrs(e.c) ==> a in heap' && heap'[a] == heap[a]
    ensures EndpointInv(e, heap')
  {
    assert forall i :: 0 <= i < |e.c.ready| && e.c.ready[i].Injected? ==> e.c.ready[i].addr in Addrs(e.c);
    assert Contents(e.c, heap') == Contents(e.c, heap);
  }

  /** Delivering the head of ReadyQ to an arriving buffer. */
  lemma DeliverKeepsInv(e: Endpoint, heap: Heap, b: HostBuffer)
    requires EndpointInv(e, heap) && e.c.ready != []
    ensures var (e', heap') := OnPending(e, heap, b); EndpointInv(e', heap')
  {
    var (e', heap') := OnPending(e, heap, b);
    var r, rest := e.c.ready[0], e.c.ready[1..];
    TailReadable(e, heap);
    assert Contents(e.c, heap) == [Resolve(e.c, heap, r)] + Contents(e'.c, heap');
    assert e'.h.msgs == AckedMsgs(e'.h.acks) + Contents(e'.c, heap');
    assert e'.h.bufs == AckedBufs(e'.h.acks) + e'.c.pending;
    AddrsOfTail(e.c);
  }

  lemma TailReadable(e: Endpoint, heap: Heap)
    requires AllReadable(e.c, heap) && DistinctAddrs(e.c) && e.c.ready != []
    ensures var heap' := if e.c.ready[0].Injected? then heap - {e.c.ready[0].addr} else heap;
            AllReadable(e.c.(ready := e.c.ready[1..]), heap') && DistinctAddrs(e.c.(ready := e.c.ready[1..]))
  {
    var rest := e.c.ready[1..];
    assert forall i :: 0 <= i < |rest| ==> rest[i] == e.c.ready[i + 1];
  }

  lemma PendingKeepsInv(e: Endpoint, heap: Heap, b: HostBuffer)
    requires EndpointInv(e, heap)
    ensures var (e', heap') := OnPending(e, heap, b);
            && EndpointInv(e', heap')
            && (forall a :: a in heap' ==> a in heap && heap'[a] == heap[a])
            && heap.Keys - heap'.Keys == Addrs(e.c) - Addrs(e'.c)
            && Addrs(e'.c) <= Addrs(e.c) && e'.h.leaked == e.h.leaked
  {
    var (e', heap') := OnPending(e, heap, b);
    if e.c.ready != [] {
      DeliverKeepsInv(e, heap, b);
      AddrsOfTail(e.c);
      if e.c.ready[0].Injected? {
        assert e.c.ready[0].addr in Addrs(e.c);
      }
    } else {
      assert Contents(e.c, heap) == [];
      assert e'.h.bufs == AckedBufs(e'.h.acks) + e'.c.pending;
    }
  }

  lemma AddrsOfTail(c: Channel)
    requires c.ready != [] && DistinctAddrs(c)
    ensures Addrs(c.(ready := c.ready[1..])) ==
            if c.ready[0].Injected? then Addrs(c) - {c.ready[0].addr} else Addrs(c)
  {
    var tail := c.(ready := c.ready[1..]);
    forall a | a in Addrs(c) && c.ready[0] != Injected(a) ensures a in Addrs(tail) {
      var i :| 0 <= i < |c.ready| && c.ready[i] == Injected(a);
      assert tail.ready[i - 1] == Injected(a);
    }
    forall a | a in Addrs(tail) ensures a in Addrs(c) && c.ready[0] != Injected(a) {
      var i :| 0 <= i < |tail.ready| && tail.ready[i] == Injected(a);
      assert c.ready[i + 1] == Injected(a);
    }
  }

  /** r is new data: an injected block nobody refers to yet, or the hand-down buffer, not queued. */
  ghost predicate NewData(e: Endpoint, heap: Heap, r: Ready) {
    match r
    case Injected(a) => a in heap && a !in Addrs(e.c) && a !in e.h.leaked
    case HandDown => e.h.outstanding + HandDowns(e.c.ready) == 0
  }

  lemma ReadyKeepsInv(e: Endpoint, heap: Heap, r: Ready)
    requires EndpointInv(e, heap) && NewData(e, heap, r)
    ensures var (e', heap') := OnReady(e, heap, r);
            && EndpointInv(e', heap')
            && (forall a :: a in heap' ==> a in heap && heap'[a] == heap[a])
            && (forall a :: a in heap && Injected(a) != r ==> a in heap')
            && (forall a :: Injected(a) == r ==> (a in heap' <==> a in Addrs(e'.c) + e'.h.leaked))
            && (forall a :: Injected(a) != r ==>
                  (a in Addrs(e'.c) <==> a in Addrs(e.c)) && (a in e'.h.leaked <==> a in e.h.leaked))
  {
    hide AckedMsgs, AckedBufs, Contents;
    var (e', heap') := OnReady(e, heap, r);
    ReadyKeepsHistory(e, heap, r);
    if e.c.pending == [] && |e.c.ready| < e.c.cap {
      HandDownsAppend(e.c.ready, r);
      AddrsOfSnoc(e.c, r);
    }
  }

  /** What was accepted is what was delivered, followed by what is queued. */
  lemma ReadyKeepsHistory(e: Endpoint, heap: Heap, r: Ready)
    requires EndpointInv(e, heap) && NewData(e, heap, r)
    ensures var (e', heap') := OnReady(e, heap, r);
            && AllReadable(e'.c, heap')
            && e'.h.bufs == AckedBufs(e'.h.acks) + e'.c.pending
            && e'.h.msgs == AckedMsgs(e'.h.acks) + Contents(e'.c, heap')
  {
    hide DistinctAddrs, Addrs, HandDowns;
    var (e', heap') := OnReady(e, heap, r);
    if e.c.pending != [] {
      assert Contents(e.c, heap) == [] && Contents(e'.c, heap') == [];
      assert e'.h.msgs == AckedMsgs(e'.h.acks) + Contents(e'.c, heap');
      assert e'.h.bufs == AckedBufs(e'.h.acks) + e'.c.pending;
    } else if |e.c.ready| < e.c.cap {
      assert Contents(e'.c, heap') == Contents(e.c, heap) + [Resolve(e.c, heap, r)];
    }
  }

  lemma AddrsOfSnoc(c: Channel, r: Ready)
    ensures Addrs(c.(ready := c.ready + [r])) ==
            if r.Injected? then Addrs(c) + {r.addr} else Addrs(c)
    ensures r.Injected? ==> r.addr !in Addrs(c) ==> forall i :: 0 <= i < |c.ready| ==> c.ready[i] != r
  {
    var c' := c.(ready := c.ready + [r]);
    forall a | a in Addrs(c) ensures a in Addrs(c') {
      var i :| 0 <= i < |c.ready| && c.ready[i] == Injected(a);
      assert c'.ready[i] == Injected(a);
    }
    assert c'.ready[|c.ready|] == r;
  }

  /** Overwriting the static buffer is harmless exactly because no ReadyQ entry refers to it. */
  lemma ReplyKeepsInv(e: Endpoint, heap: Heap, p: Payload)
    requires EndpointInv(e, heap) && e.h.outstanding > 0
    ensures var (e', heap') := OnReply(e, heap, p);
            && EndpointInv(e', heap') && heap' == heap
            && Addrs(e'.c) == Addrs(e.c) && e'.h.leaked == e.h.leaked
  {
    NoHandDown(e.c.ready);
    var e1 := Endpoint(e.c.(handDownPending := false, handDown := p),
                       e.h.(outstanding := e.h.outstanding - 1));
    assert Contents(e1.c, heap) == Contents(e.c, heap);
    assert Addrs(e1.c) == Addrs(e.c);
    assert EndpointInv(e1, heap);
    ReadyKeepsInv(e1, heap, HandDown);
    var e' := OnReply(e, heap, p).0;
    assert forall a :: Injected(a) != HandDown;
    assert Addrs(e'.c) == Addrs(e1.c);
    assert e'.h.leaked == e1.h.leaked;
  }

  lemma PendingStep(e: Endpoint, other: Endpoint, heap: Heap, b: HostBuffer)
    requires PairInv(e, other, heap)
    ensures var (e', heap') := OnPending(e, heap, b); PairInv(e', other, heap')
  {
    PendingKeepsInv(e, heap, b);
    var (e', heap') := OnPending(e, heap, b);
    ForeignHeapChange(other, heap, heap');
  }

  lemma InjectStep(e: Endpoint, other: Endpoint, heap: Heap, a: nat, data: seq<byte>)
    requires PairInv(e, other, heap) && a !in heap
    ensures var (e', heap') := OnReady(e, heap[a := data], Injected(a)); PairInv(e', other, heap')
  {
    var heap1 := heap[a := data];
    ForeignHeapChange(e, heap, heap1);
    ReadyKeepsInv(e, heap1, Injected(a));
    var (e', heap') := OnReady(e, heap1, Injected(a));
    forall x | x in Addrs(other.c) ensures x in heap' && heap'[x] == heap[x] {
      assert x != a && Injected(x) != Injected(a);
    }
    ForeignHeapChange(other, heap, heap');
    forall x ensures x in heap' <==> x in Addrs(e'.c) + e'.h.leaked + Addrs(other.c) + other.h.leaked {
      if x != a {
        assert Injected(x) != Injected(a);
      }
    }
    assert heap'.Keys == Addrs(e'.c) + e'.h.leaked + Addrs(other.c) + other.h.leaked;
  }

  lemma ReplyStep(e: Endpoint, other: Endpoint, heap: Heap, p: Payload)
    requires PairInv(e, other, heap) && e.h.outstanding > 0
    ensures var (e', heap') := OnReply(e, heap, p); PairInv(e', other, heap')
  {
    ReplyKeepsInv(e, heap, p);
  }

  lemma PairInvSymmetric(e: Endpoint, other: Endpoint, heap: Heap)
    requires PairInv(e, other, heap)
    ensures PairInv(other, e, heap)
  {
  }

  /** Every step of the system keeps the invariant of both endpoints and of the shared heap. */
  lemma StepKeepsInv(s: Sys, e: Event)
    requires Inv(s) && Enabled(s, e)
    ensures Inv(Step(s, e))
  {
    var mine, other := s.At(e.side), s.At(if e.side == Intr then Bulk else Intr);
    PairInvSymmetric(s.intr, s.bulk, s.heap);
    var r: (Endpoint, Heap);
    match e {
      case BufferArrives(_, b) =>
        PendingStep(mine, other, s.heap, b);
        r := OnPending(mine, s.heap, b);
      case Inject(_, a, data) =>
        InjectStep(mine, other, s.heap, a, data);
        r := OnReady(mine, s.heap[a := data], Injected(a));
      case DongleReply(_, p) =>
        ReplyStep(mine, other, s.heap, p);
        r := OnReply(mine, s.heap, p);
    }
    assert Step(s, e) == s.With(e.side, r);
    assert PairInv(r.0, other, r.1);
    PairInvSymmetric(r.0, other, r.1);
  }

  // ---------------------------------------------------------------- the FIFO channel it refines

  /** The reference: two sequences. The k-th accepted buffer receives the k-th accepted message. */
  datatype Fifo = Fifo(
    cap: nat,
    bufs: seq<HostBuffer>,
    msgs: seq<Payload>,
    refusedBufs: seq<HostBuffer>,
    refusedMsgs: seq<Payload>)

  datatype Input = Buffer(b: HostBuffer) | Message(p: Payload)

  function FifoStep(f: Fifo, i: Input): Fifo {
    match i
    case Buffer(b) =>
      if |f.bufs| < |f.msgs| + f.cap then f.(bufs := f.bufs + [b])
      else f.(refusedBufs := f.refusedBufs + [b])
    case Message(p) =>
      if |f.msgs| < |f.bufs| + f.cap then f.(msgs := f.msgs + [p])
      else f.(refusedMsgs := f.refusedMsgs + [p])
  }

  function FifoRun(f: Fifo, ins: seq<Input>): Fifo
    decreases |ins|
  {
    if ins == [] then f else FifoRun(FifoStep(f, ins[0]), ins[1..])
  }

  function FifoAcks(f: Fifo): seq<Ack> {
    seq(Min(|f.bufs|, |f.msgs|), i requires 0 <= i < Min(|f.bufs|, |f.msgs|) => Ack(f.bufs[i], f.msgs[i]))
  }

  /** What one event means to the endpoint side; the other endpoint does not notice it. */
  function InputOf(side: Side, e: Event): seq<Input> {
    if e.side != side then []
    else match e
         case BufferArrives(_, b) => [Buffer(b)]
         case Inject(_, _, data) => [Message(Payload(data, |data|))]
         case DongleReply(_, p) => [Message(p)]
  }

  function InputsOf(side: Side, es: seq<Event>): seq<Input> {
    if es == [] then [] else InputOf(side, es[0]) + InputsOf(side, es[1..])
  }

  function Abs(e: Endpoint): Fifo {
    Fifo(e.c.cap, e.h.bufs, e.h.msgs, e.h.refusedBufs, e.h.refusedMsgs)
  }

  // ---------------------------------------------------------------- runs

  ghost predicate Legal(s: Sys, es: seq<Event>)
    requires Inv(s)
    decreases |es|
  {
    es == [] || (Enabled(s, es[0]) && (StepKeepsInv(s, es[0]); Legal(Step(s, es[0]), es[1..])))
  }

  ghost function Run(s: Sys, es: seq<Event>): (r: Sys)
    requires Inv(s) && Legal(s, es)
    ensures Inv(r)
    decreases |es|
  {
    if es == [] then s
    else
      StepKeepsInv(s, es[0]);
      Run(Step(s, es[0]), es[1..])
  }

  lemma StepRefinesFifo(s: Sys, e: Event, side: Side)
    requires Inv(s) && Enabled(s, e)
    ensures Abs(Step(s, e).At(side)) == FifoRun(Abs(s.At(side)), InputOf(side, e))
  {
    var f := Abs(s.At(side));
    if e.side == side {
      var i := InputOf(side, e)[0];
      assert FifoRun(f, [i]) == FifoRun(FifoStep(f, i), [i][1..]) == FifoStep(f, i);
    }
  }

  lemma {:induction false} FifoRunSplit(f: Fifo, a: seq<Input>, b: seq<Input>)
    ensures FifoRun(f, a + b) == FifoRun(FifoRun(f, a), b)
    decreases |a|
  {
    if a == [] {
      assert a + b == b;
    } else {
      assert (a + b)[1..] == a[1..] + b;
      FifoRunSplit(FifoStep(f, a[0]), a[1..], b);
    }
  }

  /** In every run each endpoint accepts and refuses exactly what the FIFO channel does, and the
      acks given so far are the FIFO's: buffer k paired with message k, as it was when sent. */
  lemma {:induction false} RunRefinesFifo(s: Sys, es: seq<Event>, side: Side)
    requires Inv(s) && Legal(s, es)
    ensures Abs(Run(s, es).At(side)) == FifoRun(Abs(s.At(side)), InputsOf(side, es))
    ensures Run(s, es).At(side).h.acks == FifoAcks(Abs(Run(s, es).At(side)))
    decreases |es|
  {
    if es == [] {
      AcksAreFifo(s.At(side), s.heap);
    } else {
      StepKeepsInv(s, es[0]);
      StepRefinesFifo(s, es[0], side);
      RunRefinesFifo(Step(s, es[0]), es[1..], side);
      FifoRunSplit(Abs(s.At(side)), InputOf(side, es[0]), InputsOf(side, es[1..]));
    }
  }

  lemma AcksAreFifo(e: Endpoint, heap: Heap)
    requires EndpointInv(e, heap)
    ensures e.h.acks == FifoAcks(Abs(e))
  {
    forall i | 0 <= i < |e.h.acks|
      ensures e.h.acks[i] == Ack(e.h.bufs[i], e.h.msgs[i])
    {
      assert e.h.bufs[i] == AckedBufs(e.h.acks)[i];
      assert e.h.msgs[i] == AckedMsgs(e.h.acks)[i];
    }
  }

  /** From boot: the acks of an endpoint are a function of what was sent to it alone. */
  lemma BootRunRefinesFifo(es: seq<Event>, side: Side)
    requires Legal(Init(), es)
    ensures Run(Init(), es).At(side).h.acks ==
            FifoAcks(FifoRun(Fifo(Init().At(side).c.cap, [], [], [], []), InputsOf(side, es)))
  {
    RunRefinesFifo(Init(), es, side);
  }

  // ---------------------------------------------------------------- the hand-down buffer

  /** The static buffer is handed to the dongle only when ReadyQ is empty, and is overwritten
      only when no undelivered data lives in it: the dongle holds it or ReadyQ does, never both. */
  lemma HandDownExclusive(s: Sys, e: Event)
    requires Inv(s) && Enabled(s, e)
    ensures var (was, now) := (s.At(e.side), Step(s, e).At(e.side));
            && now.h.outstanding + HandDowns(now.c.ready) <= 1
            && (now.h.outstanding > was.h.outstanding ==> was.c.ready == [] && was.h.outstanding == 0)
            && (e.DongleReply? ==> HandDown !in was.c.ready)
            && (HandDown in was.c.ready && HandDown in now.c.ready ==> now.c.handDown == was.c.handDown)
  {
    StepKeepsInv(s, e);
    var was := s.At(e.side);
    if was.h.outstanding > 0 {
      NoHandDown(was.c.ready);
    }
  }

  /** And it is handed down whenever a buffer has to wait: afterwards the dongle holds it, whatever
      was waiting before. */
  lemma WaitingBufferIsHandedDown(s: Sys, side: Side, b: HostBuffer)
    requires Inv(s) && s.At(side).c.ready == [] && |s.At(side).c.pending| < s.At(side).c.cap
    ensures var e := Step(s, BufferArrives(side, b)).At(side);
            && e.h.outstanding == 1 && e.c.pending == s.At(side).c.pending + [b]
            && (e.h.outstanding > s.At(side).h.outstanding <==> !s.At(side).c.handDownPending)
  {
  }

  /** In every run: once a buffer was accepted and not filled on the spot, the dongle can reply, with
      any data, and the first waiting buffer gets that reply. */
  lemma DongleCanReply(s: Sys, es: seq<Event>, side: Side, b: HostBuffer, p: Payload)
    requires Inv(s) && Legal(s, es)
    requires var e := Run(s, es).At(side); e.c.ready == [] && |e.c.pending| < e.c.cap
    ensures var r := Step(Run(s, es), BufferArrives(side, b));
            && Inv(r) && Enabled(r, DongleReply(side, p))
            && var r' := Step(r, DongleReply(side, p));
               r'.At(side).h.acks == r.At(side).h.acks + [Ack(r.At(side).c.pending[0], p)]
  {
    WaitingBufferIsHandedDown(Run(s, es), side, b);
    StepKeepsInv(Run(s, es), BufferArrives(side, b));
    ReplyGoesToFirst(Step(Run(s, es), BufferArrives(side, b)), side, p);
  }

  lemma ReplyGoesToFirst(s: Sys, side: Side, p: Payload)
    requires Inv(s) && s.At(side).h.outstanding == 1 && s.At(side).c.pending != []
    ensures var s' := Step(s, DongleReply(side, p));
            s'.At(side).h.acks == s.At(side).h.acks + [Ack(s.At(side).c.pending[0], p)]
  {
    hide EndpointInv;
    StepKeepsInv(s, DongleReply(side, p));
  }

  // ---------------------------------------------------------------- the injection heap

  /** The ReadyQ entry, queued or just arrived, that this step copies into a host buffer. */
  function Delivered(s: Sys, e: Event): Option<Ready> {
    var c := s.At(e.side).c;
    match e
    case BufferArrives(_, _) => if c.ready != [] then Some(c.ready[0]) else None
    case Inject(_, a, _) => if c.pending != [] then Some(Injected(a)) else None
    case DongleReply(_, _) => if c.pending != [] then Some(HandDown) else None
  }

  function Allocated(e: Event): set<nat> {
    if e.Inject? then {e.addr} else {}
  }

  /** A step acks a buffer exactly when it delivers something, and frees a block exactly when
      what it delivers is the message in that block, which is live until then. */
  lemma FreedExactlyAtDelivery(s: Sys, e: Event)
    requires Inv(s) && Enabled(s, e)
    ensures var s' := Step(s, e);
            && |s'.At(e.side).h.acks| == |s.At(e.side).h.acks| + (if Delivered(s, e).Some? then 1 else 0)
            && (forall a :: a in s.heap.Keys + Allocated(e) && a !in s'.heap <==> Delivered(s, e) == Some(Injected(a)))
            && s'.heap.Keys <= s.heap.Keys + Allocated(e)
  {
    var d := Delivered(s, e);
    if d.Some? && d.value.Injected? && e.BufferArrives? {
      assert s.At(e.side).c.ready[0].addr in s.heap;
    }
  }

  /** A refused message is never freed: its block stays allocated in every later state. So not
      every injected message is freed exactly once; exactly the accepted ones are. */
  lemma {:induction false} RefusedBlockNeverFreed(s: Sys, es: seq<Event>, side: Side, a: nat)
    requires Inv(s) && Legal(s, es)
    requires a in s.At(side).h.leaked
    ensures a in Run(s, es).heap && a in Run(s, es).At(side).h.leaked
    decreases |es|
  {
    hide EndpointInv;
    if es != [] {
      StepKeepsInv(s, es[0]);
      LeakedStays(s, es[0], side, a);
      RefusedBlockNeverFreed(Step(s, es[0]), es[1..], side, a);
    }
  }

  lemma LeakedStays(s: Sys, e: Event, side: Side, a: nat)
    requires Inv(s) && Enabled(s, e) && a in s.At(side).h.leaked
    ensures a in Step(s, e).At(side).h.leaked
  {
    hide AckedBufs, AckedMsgs, Contents, DistinctAddrs;
  }

  /** The block of an injected message outlives the call exactly when it was not delivered on
      the spot: queued, or refused because ReadyQ was full. */
  lemma InjectionOutcome(s: Sys, side: Side, a: nat, data: seq<byte>)
    requires Inv(s) && a !in s.heap
    ensures var e := Step(s, Inject(side, a, data)).At(side);
            var c := s.At(side).c;
            && (a in e.h.leaked <==> c.pending == [] && |c.ready| == c.cap)
            && (a in Addrs(e.c) <==> c.pending == [] && |c.ready| < c.cap)
            && (a !in Step(s, Inject(side, a, data)).heap <==> c.pending != [])
  {
    var c := s.At(side).c;
    AddrsOfSnoc(c, Injected(a));
    assert a !in Addrs(c);
    assert a !in s.At(side).h.leaked;
    assert Addrs(c.(pending := if c.pending == [] then [] else c.pending[1..])) == Addrs(c);
  }

  /** Conservation: everything sent to an endpoint was delivered, is queued, or was refused. */
  lemma Conservation(es: seq<Event>, side: Side)
    requires Legal(Init(), es)
    ensures var e := Run(Init(), es).At(side);
            && |InputsOf(side, es)| ==
               2 * |e.h.acks| + |e.c.ready| + |e.c.pending| + |e.h.refusedMsgs| + |e.h.refusedBufs|
            && (e.c.ready == [] || e.c.pending == [])
  {
    RunRefinesFifo(Init(), es, side);
    FifoCounts(Abs(Init().At(side)), InputsOf(side, es));
  }

  lemma {:induction false} FifoCounts(f: Fifo, ins: seq<Input>)
    ensures var g := FifoRun(f, ins);
            |g.bufs| + |g.msgs| + |g.refusedBufs| + |g.refusedMsgs| ==
            |f.bufs| + |f.msgs| + |f.refusedBufs| + |f.refusedMsgs| + |ins|
    decreases |ins|
  {
    if ins != [] {
      FifoCounts(FifoStep(f, ins[0]), ins[1..]);
    }
  }

  // ---------------------------------------------------------------- a run that leaks

  lemma OneMore(s: Sys, e: Event, es: seq<Event>)
    requires Inv(s) && Enabled(s, e) && Inv(Step(s, e)) && Legal(Step(s, e), es)
    ensures Legal(s, [e] + es) && Run(s, [e] + es) == Run(Step(s, e), es)
  {
    hide Inv, Step, Enabled;
    assert ([e] + es)[1..] == es;
  }

  /** Only injected messages have arrived at the endpoint, at the addresses counted from zero. */
  ghost predicate OnlyInjected(s: Sys, side: Side) {
    && Inv(s) && s.At(side).c.pending == [] && s.At(side).h.leaked == {}
    && forall a :: a in s.heap ==> a < |s.At(side).c.ready|
  }

  lemma InjectOne(s: Sys, side: Side, data: seq<byte>)
    requires OnlyInjected(s, side) && |s.At(side).c.ready| < s.At(side).c.cap
    ensures var e := Inject(side, |s.At(side).c.ready|, data);
            && Enabled(s, e) && OnlyInjected(Step(s, e), side)
            && |Step(s, e).At(side).c.ready| == |s.At(side).c.ready| + 1 && Step(s, e).At(side).c.cap == s.At(side).c.cap
  {
    hide EndpointInv;
    StepKeepsInv(s, Inject(side, |s.At(side).c.ready|, data));
  }

  /** Without a host buffer the injections fill ReadyQ. */
  lemma {:induction false} FillReadyQ(s: Sys, side: Side, data: seq<byte>) returns (es: seq<Event>)
    requires OnlyInjected(s, side)
    ensures Legal(s, es) && OnlyInjected(Run(s, es), side) && |es| == s.At(side).c.cap - |s.At(side).c.ready|
    ensures |Run(s, es).At(side).c.ready| == s.At(side).c.cap == Run(s, es).At(side).c.cap
    ensures forall k :: 0 <= k < |es| ==> es[k] == Inject(side, |s.At(side).c.ready| + k, data)
    decreases s.At(side).c.cap - |s.At(side).c.ready|
  {
    hide EndpointInv, Step, Enabled;
    QueueWithinBound(s, side);
    if |s.At(side).c.ready| == s.At(side).c.cap {
      es := [];
    } else {
      var e := Inject(side, |s.At(side).c.ready|, data);
      InjectOne(s, side, data);
      var rest := FillReadyQ(Step(s, e), side, data);
      OneMore(s, e, rest);
      es := [e] + rest;
    }
  }

  lemma QueueWithinBound(s: Sys, side: Side)
    requires Inv(s)
    ensures |s.At(side).c.ready| <= s.At(side).c.cap
  {
  }

  /** From boot: nine injections at the interrupt endpoint, or seventeen at the other, while the host
      offers no buffer. The last one is refused, and whatever happens then, its block stays
      allocated. */
  lemma LeakHappens(side: Side, data: seq<byte>) returns (es: seq<Event>)
    ensures Legal(Init(), es) && |es| == (if side == Intr then 9 else 17)
    ensures forall k :: 0 <= k < |es| ==> es[k] == Inject(side, k, data)
    ensures forall more :: Legal(Run(Init(), es), more) ==> |es| - 1 in Run(Run(Init(), es), more).heap
  {
    hide Inv, Step, Enabled, OnlyInjected;
    InitOnlyInjected(side);
    var fill := FillReadyQ(Init(), side, data);
    var e := Inject(side, |fill|, data);
    RefusedWhenFull(Run(Init(), fill), side, |fill|, data);
    Snoc(Init(), fill, e);
    es := fill + [e];
    forall more | Legal(Run(Init(), es), more) ensures |es| - 1 in Run(Run(Init(), es), more).heap {
      RefusedBlockNeverFreed(Run(Init(), es), more, side, |fill|);
    }
  }

  lemma InitOnlyInjected(side: Side)
    ensures OnlyInjected(Init(), side) && Init().At(side).c.ready == []
  {
    hide EndpointInv;
  }

  lemma RefusedWhenFull(s: Sys, side: Side, a: nat, data: seq<byte>)
    requires OnlyInjected(s, side) && |s.At(side).c.ready| == s.At(side).c.cap == a
    ensures var e := Inject(side, a, data); Enabled(s, e) && Inv(Step(s, e)) && a in Step(s, e).At(side).h.leaked
  {
    hide EndpointInv;
    StepKeepsInv(s, Inject(side, a, data));
    InjectionOutcome(s, side, a, data);
  }

  lemma {:induction false} Snoc(s: Sys, es: seq<Event>, e: Event)
    requires Inv(s) && Legal(s, es) && Enabled(Run(s, es), e) && Inv(Step(Run(s, es), e))
    ensures Legal(s, es + [e]) && Run(s, es + [e]) == Step(Run(s, es), e)
    decreases |es|
  {
    hide Step, Enabled, Addrs, DistinctAddrs, AckedBufs, AckedMsgs, Contents, HandDowns;
    if es == [] {
      assert Legal(Step(s, e), []);
      OneMore(s, e, []);
      assert es + [e] == [e] + [];
    } else {
      StepKeepsInv(s, es[0]);
      Snoc(Step(s, es[0]), es[1..], e);
      OneMore(s, es[0], es[1..] + [e]);
      assert es + [e] == [es[0]] + (es[1..] + [e]);
    }
  }

  // ---------------------------------------------------------------- payloads and buffer sizes

  predicate FitsBuffer(a: Ack) { |a.payload.data| <= a.buffer.size }

  /** Nothing is copied beyond a host buffer exactly if the k-th accepted message is never longer
      than the k-th accepted buffer. */
  lemma PayloadsFitIff(es: seq<Event>, side: Side)
    requires Legal(Init(), es)
    ensures var f := FifoRun(Fifo(Init().At(side).c.cap, [], [], [], []), InputsOf(side, es));
            (forall k :: 0 <= k < |Run(Init(), es).At(side).h.acks| ==> FitsBuffer(Run(Init(), es).At(side).h.acks[k])) <==>
            (forall k :: 0 <= k < |f.bufs| && k < |f.msgs| ==> |f.msgs[k].data| <= f.bufs[k].size)
  {
    hide FifoRun, InputsOf;
    BootRunRefinesFifo(es, side);
    var f := FifoRun(Fifo(Init().At(side).c.cap, [], [], [], []), InputsOf(side, es));
    var acks := Run(Init(), es).At(side).h.acks;
    assert forall k :: 0 <= k < |acks| ==> acks[k] == Ack(f.bufs[k], f.msgs[k]);
    forall k | 0 <= k < |f.bufs| && k < |f.msgs|
      ensures k < |acks| && (FitsBuffer(acks[k]) <==> |f.msgs[k].data| <= f.bufs[k].size)
    {
    }
  }

  /** Every buffer has the size n at least, and no message is longer. */
  predicate Bounded(ins: seq<Input>, n: nat) {
    forall k :: 0 <= k < |ins| ==> InputBounded(ins[k], n)
  }

  predicate InputBounded(i: Input, n: nat) {
    match i case Buffer(b) => n <= b.size case Message(p) => |p.data| <= n
  }

  predicate FifoBounded(f: Fifo, n: nat) {
    (forall k :: 0 <= k < |f.bufs| ==> n <= f.bufs[k].size) && (forall k :: 0 <= k < |f.msgs| ==> |f.msgs[k].data| <= n)
  }

  lemma {:induction false} BoundedRun(f: Fifo, ins: seq<Input>, n: nat)
    requires Bounded(ins, n) && FifoBounded(f, n)
    ensures FifoBounded(FifoRun(f, ins), n)
    decreases |ins|
  {
    hide FifoStep;
    if ins != [] {
      assert forall k :: 0 <= k < |ins[1..]| ==> ins[1..][k] == ins[k + 1];
      BoundedStep(f, ins[0], n);
      BoundedRun(FifoStep(f, ins[0]), ins[1..], n);
    }
  }

  lemma BoundedStep(f: Fifo, i: Input, n: nat)
    requires InputBounded(i, n) && FifoBounded(f, n)
    ensures FifoBounded(FifoStep(f, i), n)
  {
  }

  /** So all payloads fit if the host's buffers all have room for the longest message. */
  lemma LargeBuffersFit(es: seq<Event>, side: Side, n: nat)
    requires Legal(Init(), es) && Bounded(InputsOf(side, es), n)
    ensures forall k :: 0 <= k < |Run(Init(), es).At(side).h.acks| ==> FitsBuffer(Run(Init(), es).At(side).h.acks[k])
  {
    hide InputsOf, Bounded;
    var f := Fifo(Init().At(side).c.cap, [], [], [], []);
    BoundedRun(f, InputsOf(side, es), n);
    PayloadsFitIff(es, side);
  }

  /** With buffers of different sizes it goes wrong: an injected message takes the buffer that the
      hand-down was sized for, and the dongle's reply, which respects that size, goes to the next. */
  lemma ReplyOverrunsBuffer(large: HostBuffer, small: HostBuffer, data: seq<byte>) returns (es: seq<Event>)
    requires small.size < |data| <= large.size
    ensures Legal(Init(), es)
    ensures es == [BufferArrives(Intr, large), Inject(Intr, 0, []), BufferArrives(Intr, small),
                   DongleReply(Intr, Payload(data, |data|))]
    ensures Run(Init(), es).intr.h.acks == [Ack(large, Payload([], 0)), Ack(small, Payload(data, |data|))]
    ensures !FitsBuffer(Run(Init(), es).intr.h.acks[1])
  {
    hide Inv, Step, Enabled;
    var e0, e1 := BufferArrives(Intr, large), Inject(Intr, 0, []);
    var e2, e3 := BufferArrives(Intr, small), DongleReply(Intr, Payload(data, |data|));
    var s2 := LargeTaken(large);
    var s4 := SmallTaken(s2, large, small, Payload(data, |data|));
    InvReadable(s2);
    var s1, s3 := Step(Init(), e0), Step(s2, e2);
    assert Run(s4, []) == s4;
    OneMore(s3, e3, []);
    OneMore(s2, e2, [e3]);
    OneMore(s1, e1, [e2] + [e3]);
    OneMore(Init(), e0, [e1] + ([e2] + [e3]));
    es := [e0, e1, e2, e3];
    assert es == [e0] + ([e1] + ([e2] + ([e3] + [])));
    assert [e3] + [] == [e3];
  }

  lemma InvReadable(s: Sys)
    requires Inv(s)
    ensures AllReadable(s.intr.c, s.heap) && AllReadable(s.bulk.c, s.heap)
  {
  }

  /** The injected message takes the first buffer while the hand-down is outstanding. */
  lemma LargeTaken(large: HostBuffer) returns (s: Sys)
    ensures var e0, e1 := BufferArrives(Intr, large), Inject(Intr, 0, []);
            && Enabled(Init(), e0) && Inv(Step(Init(), e0)) && Enabled(Step(Init(), e0), e1)
            && s == Step(Step(Init(), e0), e1)
    ensures Inv(s) && s.intr.h.outstanding == 1 && s.intr.c.pending == [] && s.intr.c.ready == [] && s.intr.c.cap > 0
    ensures s.intr.h.acks == [Ack(large, Payload([], 0))] && s.intr.c.handDownPending
  {
    hide EndpointInv;
    var e0, e1 := BufferArrives(Intr, large), Inject(Intr, 0, []);
    StepKeepsInv(Init(), e0);
    var s1 := Step(Init(), e0);
    assert s1.intr.h.outstanding == 1 && s1.intr.c.pending == [large] && s1.heap == map[];
    StepKeepsInv(s1, e1);
    s := Step(s1, e1);
  }

  /** The reply takes the second one. */
  lemma SmallTaken(s: Sys, large: HostBuffer, small: HostBuffer, p: Payload) returns (s': Sys)
    requires Inv(s) && s.intr.h.outstanding == 1 && s.intr.c.pending == [] && s.intr.c.ready == [] && s.intr.c.cap > 0
    requires s.intr.h.acks == [Ack(large, Payload([], 0))] && s.intr.c.handDownPending
    ensures var e2, e3 := BufferArrives(Intr, small), DongleReply(Intr, p);
            && Enabled(s, e2) && Inv(Step(s, e2)) && Enabled(Step(s, e2), e3) && Inv(Step(Step(s, e2), e3))
            && s' == Step(Step(s, e2), e3)
    ensures s'.intr.h.acks == [Ack(large, Payload([], 0)), Ack(small, p)]
  {
    hide EndpointInv;
    var e2, e3 := BufferArrives(Intr, small), DongleReply(Intr, p);
    StepKeepsInv(s, e2);
    var s3 := Step(s, e2);
    assert s3.intr.h.outstanding == 1 && s3.intr.c.pending == [small];
    StepKeepsInv(s3, e3);
    s' := Step(s3, e3);
  }

  // ---------------------------------------------------------------- the code

  const HAND_DOWN_MSG_DATA_SIZE := 4096

  /** The heap injected messages are allocated from. */
  class InjectionHeap {
    var live: Heap

    constructor ()
      ensures live == map[]
    {
      live := map[];
    }
  }

  /** One endpoint: its two message queues and its static hand-down message. */
  class UsbEndpoint {
    const cap: nat
    var ready: seq<Ready>
    var pending: seq<HostBuffer>
    var handDownPending: bool
    var handDownFd: int
    var handDownLength: nat
    var handDownData: seq<byte>
    var handDownResult: int
    ghost var history: History

    /** What the buffer stands for: only a positive result comes with data. */
    ghost function HandDownPayload(): Payload
      reads this
    {
      Payload(if handDownResult > 0 then handDownData else [], handDownResult)
    }

    ghost function View(): Endpoint
      reads this
    {
      Endpoint(Channel(cap, ready, pending, handDownPending, HandDownPayload()), history)
    }

    constructor (cap: nat)
      ensures View() == InitEndpoint(cap)
    {
      this.cap := cap;
      ready, pending, handDownPending := [], [], false;
      handDownFd, handDownLength, handDownData, handDownResult := 0, 0, [], 0;
      history := History([], [], [], [], [], {}, 0);
    }

    method ConfigureHandDown(fd: int, length: nat)
      requires length <= HAND_DOWN_MSG_DATA_SIZE
      modifies `handDownFd, `handDownLength
      ensures handDownFd == fd && handDownLength == length
    {
      handDownLength := length;
      handDownFd := fd;
    }

    /** Fills and acks a host buffer; an injected message is deallocated. */
    method CopyAndAckIpcMessage(heap: InjectionHeap, b: HostBuffer, r: Ready)
      requires Readable(r, heap.live)
      modifies `history, heap
      ensures (View(), heap.live) == CopyAndAck(old(View()), old(heap.live), b, r)
    {
      var data: seq<byte>, retval: int;
      match r {
        case Injected(a) =>
          data, retval := heap.live[a], |heap.live[a]|;
          heap.live := heap.live - {a};
        case HandDown =>
          data, retval := [], handDownResult;
          if retval > 0 {
            data := handDownData;
          }
      }
      history := history.(acks := history.acks + [Ack(b, Payload(data, retval))]);
    }

    /** handle_bulk_intr_pending_message: the host gives a buffer to fill. Forwarding to the
        dongle happens only with the hand-down message. */
    method HandlePending(heap: InjectionHeap, b: HostBuffer) returns (handedDown: bool)
      requires AllReadable(View().c, heap.live)
      requires b.size <= HAND_DOWN_MSG_DATA_SIZE
      modifies this, heap
      ensures (View(), heap.live) == OnPending(old(View()), old(heap.live), b)
      ensures handedDown <==> history.outstanding != old(history.outstanding)
      ensures handedDown <==> old(ready) == [] && |old(pending)| < cap && !old(handDownPending)
      ensures handedDown ==> handDownFd == b.fd && handDownLength == b.size && pending != []
      ensures !handedDown ==> handDownFd == old(handDownFd) && handDownLength == old(handDownLength)
    {
      handedDown := false;
      if ready != [] {
        var r := ready[0];
        ready := ready[1..];
        history := history.(bufs := history.bufs + [b]);
        CopyAndAckIpcMessage(heap, b, r);
      } else if |pending| < cap {
        pending := pending + [b];
        history := history.(bufs := history.bufs + [b]);
        if !handDownPending {
          ConfigureHandDown(b.fd, b.size);
          handDownPending := true;
          handedDown := true;
          history := history.(outstanding := history.outstanding + 1);
        }
      } else {
        history := history.(refusedBufs := history.refusedBufs + [b]);
      }
    }

    /** handle_bulk_intr_ready_message: data is ready for a host buffer. */
    method HandleReady(heap: InjectionHeap, r: Ready)
      requires Readable(r, heap.live)
      modifies this, heap
      ensures (View(), heap.live) == OnReady(old(View()), old(heap.live), r)
      ensures handDownFd == old(handDownFd) && handDownLength == old(handDownLength)
    {
      ghost var p := Resolve(View().c, heap.live, r);
      if pending != [] {
        var b := pending[0];
        pending := pending[1..];
        history := history.(msgs := history.msgs + [p]);
        CopyAndAckIpcMessage(heap, b, r);
      } else if |ready| < cap {
        ready := ready + [r];
        history := history.(msgs := history.msgs + [p]);
      } else {
        history := history.(refusedMsgs := history.refusedMsgs + [p],
                            leaked := if r.Injected? then history.leaked + {r.addr} else history.leaked);
      }
    }

    /** OH1_IOS_ResourceReply_hook for this endpoint's hand-down message. */
    method ResourceReply(heap: InjectionHeap, data: seq<byte>, retval: int)
      requires history.outstanding > 0
      modifies this, heap
      ensures (View(), heap.live) ==
              OnReply(old(View()), old(heap.live), Payload(if retval > 0 then data else [], retval))
    {
      handDownPending := false;
      handDownData := data;
      handDownResult := retval;
      history := history.(outstanding := history.outstanding - 1);
      HandleReady(heap, HandDown);
    }
  }

  /** The module's static state: both endpoints and the injection heap. */
  class Hooks {
    const intr: UsbEndpoint
    const bulk: UsbEndpoint
    const heap: InjectionHeap

    ghost function View(): Sys
      reads this, intr, bulk, heap
    {
      Sys(intr.View(), bulk.View(), heap.live)
    }

    ghost predicate Valid()
      reads this, intr, bulk, heap
    {
      intr != bulk && Inv(View())
    }

    constructor ()
      ensures Valid() && View() == Init()
    {
      intr := new UsbEndpoint(INTR_QUEUE_SIZE);
      bulk := new UsbEndpoint(BULK_QUEUE_SIZE);
      heap := new InjectionHeap();
    }

    function Endpoint(side: Side): UsbEndpoint {
      match side case Intr => intr case Bulk => bulk
    }

    method ReceiveBuffer(side: Side, b: HostBuffer) returns (handedDown: bool)
      requires Valid() && b.size <= HAND_DOWN_MSG_DATA_SIZE
      modifies Endpoint(side), heap
      ensures Valid() && View() == Step(old(View()), BufferArrives(side, b))
      ensures var c := old(View()).At(side).c; handedDown <==> c.ready == [] && |c.pending| < c.cap && !c.handDownPending
    {
      StepKeepsInv(View(), BufferArrives(side, b));
      handedDown := Endpoint(side).HandlePending(heap, b);
    }

    /** An inject_* call whose allocation returned the free block a. */
    method InjectMessage(side: Side, a: nat, data: seq<byte>)
      requires Valid() && a !in heap.live
      modifies Endpoint(side), heap
      ensures Valid() && View() == Step(old(View()), Inject(side, a, data))
    {
      StepKeepsInv(View(), Inject(side, a, data));
      heap.live := heap.live[a := data];
      Endpoint(side).HandleReady(heap, Injected(a));
    }

    method ResourceReply(side: Side, data: seq<byte>, retval: int)
      requires Valid() && Enabled(View(), DongleReply(side, Payload(if retval > 0 then data else [], retval)))
      modifies Endpoint(side), heap
      ensures Valid()
      ensures View() == Step(old(View()), DongleReply(side, Payload(if retval > 0 then data else [], retval)))
    {
      StepKeepsInv(View(), DongleReply(side, Payload(if retval > 0 then data else [], retval)));
      Endpoint(side).ResourceReply(heap, data, retval);
    }
  }
}
