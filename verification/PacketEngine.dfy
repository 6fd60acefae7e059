/**
 * The TAP-Win32 packet engine (tapdrvr.c) as a transition system. A step is one critical
 * section under m_QueueLock, or one action a thread takes on objects it alone holds. Any
 * number of transmit, read, cancel and flush threads run, interleaved in any order.
 */
module PacketEngine {
  import opened Collections
  import opened Accounting
  import opened Bytes

  const PACKET_QUEUE_SIZE := 64
  const IRP_QUEUE_SIZE := 16
  const ETHERNET_HEADER_SIZE := 14

  /** A TapPacket; `tun` is the TP_TUN flag and `data` the whole ethernet frame. */
  datatype Packet = Packet(id: nat, data: seq<byte>, tun: bool)

  /** A read request; `room` is the length of the caller's buffer. */
  datatype Irp = Irp(id: nat, room: nat)

  datatype Status = Success | BufferOverflow | Cancelled | Unsuccessful

  /** What IoCompleteRequest hands back to user space. */
  datatype Completion = Completion(irp: Irp, status: Status, information: nat, delivered: seq<byte>)

  /** The cast of a length to a 32-bit int. */
  function AsInt(n: nat): (i: int)
    ensures i <= n && -0x8000_0000 <= i < 0x8000_0000
    ensures exists k :: n == i + 0x1_0000_0000 * k
    ensures n < 0x8000_0000 ==> i == n
  {
    var low := n % 0x1_0000_0000;
    assert n == low + 0x1_0000_0000 * (n / 0x1_0000_0000) == low - 0x1_0000_0000 + 0x1_0000_0000 * (n / 0x1_0000_0000 + 1);
    if low < 0x8000_0000 then low else low - 0x1_0000_0000
  }

  /** CompleteIRP: point-to-point packets lose their ethernet header, others do not. */
  function Delivery(irp: Irp, p: Packet): (c: Completion)
    ensures c.irp == irp
    ensures c.status == Success || c.status == BufferOverflow
    ensures c.information == |c.delivered| <= irp.room
  {
    var offset := if p.tun then ETHERNET_HEADER_SIZE else 0;
    var len := |p.data| - offset;
    if len < 0 || AsInt(irp.room) < len then Completion(irp, BufferOverflow, 0, [])
    else Completion(irp, Success, len, p.data[offset..])
  }

  /**
   * A reader gets a packet whole or not at all: whole exactly when it has its header and fits
   * the buffer, whose length counts as a signed number. The 14 bytes of the header, where it is
   * cut off, and what is delivered make up the packet.
   */
  lemma DeliveredWhole(irp: Irp, p: Packet)
    ensures var c := Delivery(irp, p); var header := if p.tun then 14 else 0;
      && (c.status == Success <==> header <= |p.data| && |p.data| - header <= AsInt(irp.room))
      && (c.status == Success ==> p.data == p.data[..header] + c.delivered)
      && (c.status != Success ==> c.delivered == [])
  {
    var header := if p.tun then ETHERNET_HEADER_SIZE else 0;
    if header <= |p.data| {
      assert p.data == p.data[..header] + p.data[header..];
    }
  }

  //
  // The critical sections. `up` is what IS_UP yields inside the section.
  //

  datatype Queues = Queues(packets: seq<Packet>, irps: seq<Irp>)

  /** AdapterTransmit queues its packet: unless the device is down or the queue full. */
  function PushPacket(q: Queues, up: bool, p: Packet): (r: (Queues, bool)) {
    if up && |q.packets| < PACKET_QUEUE_SIZE then (q.(packets := q.packets + [p]), true) else (q, false)
  }

  /** The match loop of AdapterTransmit takes the two heads. */
  function TakePair(q: Queues, up: bool): (r: (Queues, Option<(Irp, Packet)>)) {
    if up && q.packets != [] && q.irps != []
    then (Queues(q.packets[1..], q.irps[1..]), Some((q.irps[0], q.packets[0])))
    else (q, None)
  }

  /** IRP_MJ_READ is served at once when a packet waits and no other read does. */
  function TakeForRead(q: Queues, up: bool): (r: (Queues, Option<Packet>)) {
    if up && q.packets != [] && q.irps == []
    then (q.(packets := q.packets[1..]), Some(q.packets[0]))
    else (q, None)
  }

  /** IRP_MJ_READ is pended otherwise: unless the device is down or the queue full. */
  function PendRead(q: Queues, up: bool, irp: Irp): (r: (Queues, bool)) {
    if up && |q.irps| < IRP_QUEUE_SIZE then (q.(irps := q.irps + [irp]), true) else (q, false)
  }

  /** CancelIRP removes the request from the queue, wherever it stands. */
  ghost function ExtractIrp(q: Queues, irp: Irp): (r: (Queues, bool)) {
    (q.(irps := Without(q.irps, {irp})), irp in q.irps)
  }

  function PopIrp(q: Queues): (r: (Queues, Option<Irp>)) {
    if q.irps == [] then (q, None) else (q.(irps := q.irps[1..]), Some(q.irps[0]))
  }

  function PopPacket(q: Queues): (r: (Queues, Option<Packet>)) {
    if q.packets == [] then (q, None) else (q.(packets := q.packets[1..]), Some(q.packets[0]))
  }

  //
  // Threads: where each one stands in its entry point, and what it holds there.
  //

  datatype Thread =
    | TxFiltering(p: Packet)                          // AdapterTransmit, before the queue
    | TxPushing(p: Packet)
    | TxDropping(p: Packet)                           // at label no_queue
    | TxMatching                                      // at the head of the match loop
    | Delivering(irp: Irp, p: Packet, transmit: bool) // in CompleteIRP
    | RdChecking(irp: Irp)                            // IRP_MJ_READ, before the queues
    | RdServing(irp: Irp)
    | RdPending(irp: Irp)
    | RdFailing(irp: Irp)
    | CnExtracting(target: Irp)                       // CancelIRPCallback
    | Cancelling(irp: Irp, flush: bool)               // CancelIRP, request withdrawn
    | FlIrps                                          // FlushQueues, first loop
    | FlPackets                                       // FlushQueues, second loop
    | FlFreeing(p: Packet)
    | Done

  function IrpOf(th: Thread): Option<Irp> {
    match th
    case Delivering(irp, _, _) => Some(irp)
    case RdChecking(irp) => Some(irp)
    case RdServing(irp) => Some(irp)
    case RdPending(irp) => Some(irp)
    case RdFailing(irp) => Some(irp)
    case Cancelling(irp, _) => Some(irp)
    case _ => None
  }

  function PacketOf(th: Thread): Option<Packet> {
    match th
    case TxFiltering(p) => Some(p)
    case TxPushing(p) => Some(p)
    case TxDropping(p) => Some(p)
    case Delivering(_, p, _) => Some(p)
    case FlFreeing(p) => Some(p)
    case _ => None
  }

  /** The thread holds a read request that has not been admitted to the queue yet. */
  predicate Unadmitted(th: Thread) {
    th.RdChecking? || th.RdServing? || th.RdPending? || th.RdFailing?
  }

  datatype Fate = Matched(irp: Irp) | Flushed

  datatype Departure = Departure(p: Packet, fate: Fate)

  /** What has happened so far, in the order of the critical sections. */
  datatype Log = Log(
    accepted: seq<Packet>,      // packets pushed
    departed: seq<Departure>,   // packets popped
    admitted: seq<Irp>,         // reads served at once or pended
    withdrawn: set<Irp>,        // reads cancelled or flushed out of the queue
    completed: seq<Completion>, // IoCompleteRequest
    freed: seq<Packet>)         // packet buffers freed

  datatype State = State(
    q: Queues,
    threads: map<nat, Thread>,
    irpPlace: map<Irp, Place>,
    packetPlace: map<Packet, Place>,
    log: Log)

  const BOOT := State(Queues([], []), map[], map[], map[], Log([], [], [], {}, [], []))

  //
  // Steps
  //

  /** A thread enters the driver; packet buffers and requests are new when they arrive. */
  predicate CanSpawn(s: State, t: nat, th: Thread) {
    && t !in s.threads
    && match th
       case TxFiltering(p) => p !in s.packetPlace
       case RdChecking(irp) => irp !in s.irpPlace
       case CnExtracting(_) => true
       case FlIrps => true
       case _ => false
  }

  function Spawn(s: State, t: nat, th: Thread): State
    requires CanSpawn(s, t, th)
  {
    var s' := s.(threads := s.threads[t := th]);
    match th
    case TxFiltering(p) => s'.(packetPlace := s.packetPlace[p := AtThread(t)])
    case RdChecking(irp) => s'.(irpPlace := s.irpPlace[irp := AtThread(t)])
    case _ => s'
  }

  /** What a step does beyond moving its thread along. */
  datatype Effect =
    | Quiet
    | Accepts(p: Packet)                       // the packet enters the queue
    | Pairs(irp: Irp, p: Packet, atOnce: bool) // the packet leaves the queue for this request
    | Admits(irp: Irp)                         // the request enters the queue
    | Withdraws(irp: Irp)                      // the request leaves the queue unserved
    | Flushes(p: Packet)                       // the packet leaves the queue unread
    | Delivers(irp: Irp, p: Packet)            // CompleteIRP: packet freed, request completed
    | Rejects(c: Completion)                   // request completed without a packet
    | Frees(p: Packet)                         // packet freed without a request

  /**
   * The next step of a thread: where it stands afterwards, the queues, and the effect. `obs`
   * is what the thread observes of its surroundings: IS_UP in a critical section; whether the
   * protocol filters let a packet through; whether a request's buffer is mapped and the
   * interface up.
   */
  ghost function Next(th: Thread, q: Queues, obs: bool): (Thread, Queues, Effect)
  {
    match th
    case TxFiltering(p) => (if obs then TxPushing(p) else TxDropping(p), q, Quiet)
    case TxPushing(p) =>
      var (q', ok) := PushPacket(q, obs, p);
      if ok then (TxMatching, q', Accepts(p)) else (TxDropping(p), q', Quiet)
    case TxDropping(p) => (Done, q, Frees(p))
    case TxMatching =>
      (match TakePair(q, obs)
       case (q', Some((irp, p))) => (Delivering(irp, p, true), q', Pairs(irp, p, false))
       case (q', None) => (Done, q', Quiet))
    case Delivering(irp, p, transmit) => (if transmit then TxMatching else Done, q, Delivers(irp, p))
    case RdChecking(irp) => (if obs then RdServing(irp) else RdFailing(irp), q, Quiet)
    case RdServing(irp) =>
      (match TakeForRead(q, obs)
       case (q', Some(p)) => (Delivering(irp, p, false), q', Pairs(irp, p, true))
       case (q', None) => (RdPending(irp), q', Quiet))
    case RdPending(irp) =>
      var (q', ok) := PendRead(q, obs, irp);
      if ok then (Done, q', Admits(irp)) else (RdFailing(irp), q', Quiet)
    case RdFailing(irp) => (Done, q, Rejects(Completion(irp, Unsuccessful, 0, [])))
    case CnExtracting(irp) =>
      var (q', found) := ExtractIrp(q, irp);
      if found then (Cancelling(irp, false), q', Withdraws(irp)) else (Done, q', Quiet)
    case Cancelling(irp, flush) =>
      (if flush then FlIrps else Done, q, Rejects(Completion(irp, Cancelled, 0, [])))
    case FlIrps =>
      (match PopIrp(q)
       case (q', Some(irp)) => (Cancelling(irp, true), q', Withdraws(irp))
       case (q', None) => (FlPackets, q', Quiet))
    case FlPackets =>
      (match PopPacket(q)
       case (q', Some(p)) => (FlFreeing(p), q', Flushes(p))
       case (q', None) => (Done, q', Quiet))
    case FlFreeing(p) => (FlPackets, q, Frees(p))
    case Done => (Done, q, Quiet)
  }

  /** The places of requests after an effect of thread `t`. */
  function IrpPlaces(place: map<Irp, Place>, t: nat, e: Effect): map<Irp, Place> {
    match e
    case Pairs(irp, _, _) => place[irp := AtThread(t)]
    case Withdraws(irp) => place[irp := AtThread(t)]
    case Admits(irp) => place[irp := Queued]
    case Delivers(irp, _) => place[irp := Finished]
    case Rejects(c) => place[c.irp := Finished]
    case _ => place
  }

  /** The places of packet buffers after an effect of thread `t`. */
  function PacketPlaces(place: map<Packet, Place>, t: nat, e: Effect): map<Packet, Place> {
    match e
    case Pairs(_, p, _) => place[p := AtThread(t)]
    case Flushes(p) => place[p := AtThread(t)]
    case Accepts(p) => place[p := Queued]
    case Delivers(_, p) => place[p := Finished]
    case Frees(p) => place[p := Finished]
    case _ => place
  }

  function Record(log: Log, e: Effect): Log {
    match e
    case Quiet => log
    case Accepts(p) => log.(accepted := log.accepted + [p])
    case Pairs(irp, p, atOnce) =>
      log.(departed := log.departed + [Departure(p, Matched(irp))],
           admitted := if atOnce then log.admitted + [irp] else log.admitted)
    case Admits(irp) => log.(admitted := log.admitted + [irp])
    case Withdraws(irp) => log.(withdrawn := log.withdrawn + {irp})
    case Flushes(p) => log.(departed := log.departed + [Departure(p, Flushed)])
    case Delivers(irp, p) =>
      log.(completed := log.completed + [Delivery(irp, p)], freed := log.freed + [p])
    case Rejects(c) => log.(completed := log.completed + [c])
    case Frees(p) => log.(freed := log.freed + [p])
  }

  ghost function Step(s: State, t: nat, obs: bool): State
    requires t in s.threads
  {
    var (th, q, e) := Next(s.threads[t], s.q, obs);
    State(q, s.threads[t := th], IrpPlaces(s.irpPlace, t, e), PacketPlaces(s.packetPlace, t, e), Record(s.log, e))
  }

  datatype Action = Enter(t: nat, th: Thread) | Advance(t: nat, obs: bool)

  ghost predicate Enabled(s: State, a: Action) {
    match a
    case Enter(t, th) => CanSpawn(s, t, th)
    case Advance(t, _) => t in s.threads
  }

  /** An action that is not enabled does not happen. */
  ghost function Apply(s: State, a: Action): State {
    if !Enabled(s, a) then s
    else
      match a
      case Enter(t, th) => Spawn(s, t, th)
      case Advance(t, obs) => Step(s, t, obs)
  }

  /** The state after a run: any sequence of actions, in any interleaving of the threads. */
  ghost function After(run: seq<Action>): State {
    if run == [] then BOOT else Apply(After(run[..|run| - 1]), run[|run| - 1])
  }
}
