/**
 * The entry points of tapdrvr.c over the two ring queues, each run to completion before the
 * next starts. Their critical sections are those of the interleaved system.
 */
module TapExtension {
  import opened Collections
  import opened RingQueue
  import opened PacketEngine

  /** Completions for the pairs (irps[i], packets[i]). */
  function Deliveries(irps: seq<Irp>, packets: seq<Packet>): (c: seq<Completion>)
    requires |irps| == |packets|
    ensures |c| == |irps|
  {
    seq(|irps|, i requires 0 <= i < |irps| => Delivery(irps[i], packets[i]))
  }

  function Cancellations(irps: seq<Irp>): (c: seq<Completion>)
    ensures |c| == |irps|
  {
    seq(|irps|, i requires 0 <= i < |irps| => Completion(irps[i], Cancelled, 0, []))
  }

  /** How many pairs the match loop takes before it leaves. */
  function PairCount(q: Queues, up: bool): (n: nat)
    ensures n == if up then Min(|q.packets|, |q.irps|) else 0
  {
    if !up then 0 else if |q.packets| < |q.irps| then |q.packets| else |q.irps|
  }

  /** No read waits while a packet waits. */
  predicate NeverBoth(q: Queues) {
    q.packets == [] || q.irps == []
  }

  datatype ReadOutcome = Served | Pended | Refused

  /** The operations on one extension, and the flags that make up IS_UP. */
  datatype Op =
    | TransmitOp(p: Packet)
    | ReadOp(irp: Irp)
    | CancelOp(irp: Irp)
    | FlushOp
    | InterfaceOp(running: bool)
    | TapOp(running: bool)

  datatype Serial = Serial(
    q: Queues,
    interfaceIsRunning: bool,
    tapIsRunning: bool,
    tx: nat,
    txErr: nat,
    completed: seq<Completion>,
    freed: seq<Packet>)

  /** What one operation does, from its start to its end. */
  ghost function Handled(s: Serial, op: Op): Serial {
    var up := s.interfaceIsRunning && s.tapIsRunning;
    match op
    case TransmitOp(p) =>
      if up && |s.q.packets| < 64 then
        var packets := s.q.packets + [p];
        var n := Min(|packets|, |s.q.irps|);
        s.(q := Queues(packets[n..], s.q.irps[n..]), tx := s.tx + 1,
           completed := s.completed + Deliveries(s.q.irps[..n], packets[..n]),
           freed := s.freed + packets[..n])
      else s.(txErr := s.txErr + 1, freed := s.freed + [p])
    case ReadOp(irp) =>
      if up && s.q.packets != [] && s.q.irps == [] then
        s.(q := s.q.(packets := s.q.packets[1..]),
           completed := s.completed + [Delivery(irp, s.q.packets[0])],
           freed := s.freed + [s.q.packets[0]])
      else if up && |s.q.irps| < 16 then s.(q := s.q.(irps := s.q.irps + [irp]))
      else s.(completed := s.completed + [Completion(irp, Unsuccessful, 0, [])])
    case CancelOp(irp) =>
      s.(q := s.q.(irps := Without(s.q.irps, {irp})),
         completed := s.completed + if irp in s.q.irps then [Completion(irp, Cancelled, 0, [])] else [])
    case FlushOp =>
      s.(q := Queues([], []), completed := s.completed + Cancellations(s.q.irps), freed := s.freed + s.q.packets)
    case InterfaceOp(running) => s.(interfaceIsRunning := running)
    case TapOp(running) => s.(tapIsRunning := running)
  }

  ghost function HandledAll(s: Serial, script: seq<Op>): Serial {
    if script == [] then s else Handled(HandledAll(s, script[..|script| - 1]), script[|script| - 1])
  }

  /** One operation at a time, a packet and a read never come to wait for each other. */
  lemma HandledKeepsNeverBoth(s: Serial, op: Op)
    requires NeverBoth(s.q)
    ensures NeverBoth(Handled(s, op).q)
  {
    hide Deliveries, Cancellations, Delivery;
    if op.CancelOp? {
      WithoutMembers(s.q.irps, {op.irp});
      assert s.q.irps == [] ==> Without(s.q.irps, {op.irp}) == [];
    }
  }

  /** So between the operations of a run, in whatever order, one of the queues is always empty. */
  lemma {:induction false} NeverBothThroughout(s: Serial, script: seq<Op>, k: nat)
    requires NeverBoth(s.q) && k <= |script|
    ensures NeverBoth(HandledAll(s, script[..k]).q)
  {
    hide Handled;
    if k == 0 {
      assert script[..k] == [];
    } else {
      assert script[..k][..k - 1] == script[..k - 1];
      NeverBothThroughout(s, script, k - 1);
      HandledKeepsNeverBoth(HandledAll(s, script[..k - 1]), script[k - 1]);
    }
  }

  class Extension {
    const packetQueue: Queue<Packet>
    const irpQueue: Queue<Irp>
    var interfaceIsRunning: bool
    var tapIsRunning: bool
    var tx: nat
    var txErr: nat
    ghost var completed: seq<Completion>  // calls of IoCompleteRequest
    ghost var freed: seq<Packet>          // packet buffers given back

    ghost predicate Valid()
      reads this, packetQueue, irpQueue
    {
      && packetQueue.Valid() && packetQueue.capacity == PACKET_QUEUE_SIZE
      && irpQueue.Valid() && irpQueue.capacity == IRP_QUEUE_SIZE
      && packetQueue as object != irpQueue as object
      && packetQueue.data as object != irpQueue.data as object
    }

    ghost function Footprint(): set<object>
      reads this
    {
      {this, packetQueue, irpQueue, packetQueue.data, irpQueue.data}
    }

    ghost function Abs(): (q: Queues)
      requires Valid()
      reads this, packetQueue, irpQueue, packetQueue.data, irpQueue.data
    {
      Queues(packetQueue.Contents(), irpQueue.Contents())
    }

    ghost function Now(): Serial
      requires Valid()
      reads this, packetQueue, irpQueue, packetQueue.data, irpQueue.data
    {
      Serial(Abs(), interfaceIsRunning, tapIsRunning, tx, txErr, completed, freed)
    }

    /** IS_UP */
    predicate IsUp()
      reads this
    {
      interfaceIsRunning && tapIsRunning
    }

    constructor ()
      ensures Valid() && fresh(Footprint()) && Abs() == Queues([], [])
      ensures completed == [] && freed == []
    {
      packetQueue := new Queue(PACKET_QUEUE_SIZE);
      irpQueue := new Queue(IRP_QUEUE_SIZE);
      interfaceIsRunning, tapIsRunning := false, true;
      tx, txErr := 0, 0;
      completed, freed := [], [];
    }

    //
    // The critical sections under m_QueueLock
    //

    method PushSection(p: Packet) returns (ok: bool)
      requires Valid()
      modifies packetQueue, packetQueue.data
      ensures Valid() && (Abs(), ok) == PushPacket(old(Abs()), IsUp(), p)
    {
      hide Window;
      var result := None;
      if IsUp() {
        result := packetQueue.Push(p);
      }
      ok := result.Some?;
    }

    method PairSection() returns (r: Option<(Irp, Packet)>)
      requires Valid()
      modifies packetQueue, irpQueue
      ensures Valid() && (Abs(), r) == TakePair(old(Abs()), IsUp())
    {
      hide Window;
      r := None;
      if IsUp() && packetQueue.size > 0 && irpQueue.size > 0 {
        var irp := irpQueue.Pop();
        var p := packetQueue.Pop();
        r := Some((irp.value, p.value));
      }
    }

    method ServeSection() returns (r: Option<Packet>)
      requires Valid()
      modifies packetQueue
      ensures Valid() && (Abs(), r) == TakeForRead(old(Abs()), IsUp())
    {
      hide Window;
      r := None;
      if IsUp() && packetQueue.size > 0 && irpQueue.size == 0 {
        r := packetQueue.Pop();
      }
    }

    method PendSection(irp: Irp) returns (ok: bool)
      requires Valid()
      modifies irpQueue, irpQueue.data
      ensures Valid() && (Abs(), ok) == PendRead(old(Abs()), IsUp(), irp)
    {
      hide Window;
      var result := None;
      if IsUp() {
        result := irpQueue.Push(irp);
      }
      ok := result.Some?;
    }

    method ExtractSection(irp: Irp) returns (found: bool)
      requires Valid()
      modifies irpQueue, irpQueue.data
      ensures Valid() && (Abs(), found) == ExtractIrp(old(Abs()), irp)
    {
      hide Window, Without;
      var result := irpQueue.Extract(irp);
      found := result.Some?;
    }

    method PopIrpSection() returns (r: Option<Irp>)
      requires Valid()
      modifies irpQueue
      ensures Valid() && (Abs(), r) == PopIrp(old(Abs()))
    {
      hide Window;
      r := irpQueue.Pop();
    }

    method PopPacketSection() returns (r: Option<Packet>)
      requires Valid()
      modifies packetQueue
      ensures Valid() && (Abs(), r) == PopPacket(old(Abs()))
    {
      hide Window;
      r := packetQueue.Pop();
    }

    //
    // The entry points
    //

    /** CompleteIRP, as far as the packet and the request are concerned. */
    method CompleteIRP(irp: Irp, p: Packet)
      modifies this`completed, this`freed
      ensures completed == old(completed) + [Delivery(irp, p)]
      ensures freed == old(freed) + [p]
    {
      freed := freed + [p];
      completed := completed + [Delivery(irp, p)];
    }

    /** One turn of the match loop. */
    method MatchTurn() returns (matched: bool)
      requires Valid()
      modifies this`completed, this`freed, packetQueue, irpQueue
      ensures Valid() && matched == (PairCount(old(Abs()), IsUp()) > 0)
      ensures var q := old(Abs());
        if matched then
          && Abs() == Queues(q.packets[1..], q.irps[1..])
          && completed == old(completed) + [Delivery(q.irps[0], q.packets[0])]
          && freed == old(freed) + [q.packets[0]]
        else Abs() == q && completed == old(completed) && freed == old(freed)
    {
      hide Delivery, Queue.Valid, Queue.Contents;
      var pair := PairSection();
      match pair
      case Some((irp, p)) =>
        CompleteIRP(irp, p);
        return true;
      case None =>
        return false;
    }

    /** The match loop of AdapterTransmit. */
    method MatchLoop()
      requires Valid()
      modifies this`completed, this`freed, packetQueue, irpQueue
      ensures Valid()
      ensures var q := old(Abs());
        var n := PairCount(q, IsUp());
        && Abs() == Queues(q.packets[n..], q.irps[n..])
        && completed == old(completed) + Deliveries(q.irps[..n], q.packets[..n])
        && freed == old(freed) + q.packets[..n]
    {
      hide Valid, Abs, Deliveries, Delivery, PairCount;
      ghost var q, up := Abs(), IsUp();
      ghost var n := 0;
      NothingDelivered();
      while true
        invariant Valid() && n <= PairCount(q, up)
        invariant Abs() == Queues(q.packets[n..], q.irps[n..])
        invariant completed == old(completed) + Deliveries(q.irps[..n], q.packets[..n])
        invariant freed == old(freed) + q.packets[..n]
        decreases |q.packets| - n
      {
        PairCountRest(q, n, up);
        var matched := MatchTurn();
        if !matched {
          return;
        }
        DeliveriesNext(q.irps, q.packets, n);
        n := n + 1;
      }
    }

    /** AdapterTransmit from the moment its packet has passed the protocol filters. */
    method Transmit(p: Packet)
      requires Valid()
      modifies this`tx, this`txErr, this`completed, this`freed, packetQueue, irpQueue, packetQueue.data
      ensures Valid()
      ensures tx == old(tx) + 1 <==> IsUp() && |old(Abs()).packets| < 64
      ensures tx == old(tx) + 1 ==>
        var irps, packets := old(Abs()).irps, old(Abs()).packets + [p];
        var n := Min(|packets|, |irps|);
        && Abs() == Queues(packets[n..], irps[n..])
        && completed == old(completed) + Deliveries(irps[..n], packets[..n])
        && freed == old(freed) + packets[..n]
        && txErr == old(txErr)
      ensures tx != old(tx) + 1 ==>
        && Abs() == old(Abs())
        && completed == old(completed) && freed == old(freed) + [p]
        && tx == old(tx) && txErr == old(txErr) + 1
      ensures old(NeverBoth(Abs())) || tx == old(tx) + 1 ==> NeverBoth(Abs())
    {
      var ok := PushSection(p);
      if !ok {
        txErr := txErr + 1;
        freed := freed + [p];
        return;
      }
      tx := tx + 1;
      MatchLoop();
    }

    /** IRP_MJ_READ of a request whose buffer is mapped. */
    method Read(irp: Irp) returns (outcome: ReadOutcome)
      requires Valid()
      modifies this`completed, this`freed, packetQueue, irpQueue, irpQueue.data
      ensures Valid()
      ensures var q := old(Abs());
        match outcome
        case Served =>
          && IsUp() && q.packets != [] && q.irps == []
          && Abs() == q.(packets := q.packets[1..])
          && completed == old(completed) + [Delivery(irp, q.packets[0])]
          && freed == old(freed) + [q.packets[0]]
        case Pended =>
          && IsUp() && (q.packets == [] || q.irps != []) && |q.irps| < 16
          && Abs() == q.(irps := q.irps + [irp])
          && completed == old(completed) && freed == old(freed)
        case Refused =>
          && (!IsUp() || (|q.irps| == 16 && (q.packets == [] || q.irps != [])))
          && Abs() == q
          && completed == old(completed) + [Completion(irp, Unsuccessful, 0, [])] && freed == old(freed)
      ensures old(NeverBoth(Abs())) ==> NeverBoth(Abs())
    {
      if !interfaceIsRunning {
        completed := completed + [Completion(irp, Unsuccessful, 0, [])];
        return Refused;
      }
      var p := ServeSection();
      if p.Some? {
        CompleteIRP(irp, p.value);
        return Served;
      }
      var ok := PendSection(irp);
      if ok {
        return Pended;
      }
      completed := completed + [Completion(irp, Unsuccessful, 0, [])];
      return Refused;
    }

    /** CancelIRPCallback of a request. */
    method Cancel(irp: Irp)
      requires Valid()
      modifies this`completed, irpQueue, irpQueue.data
      ensures Valid()
      ensures Abs() == old(Abs()).(irps := Without(old(Abs()).irps, {irp}))
      ensures completed == old(completed) + if irp in old(Abs()).irps then [Completion(irp, Cancelled, 0, [])] else []
      ensures old(NeverBoth(Abs())) ==> NeverBoth(Abs())
    {
      var found := ExtractSection(irp);
      if found {
        completed := completed + [Completion(irp, Cancelled, 0, [])];
      }
    }

    /** One turn of the first loop of FlushQueues. */
    method FlushIrp() returns (found: bool)
      requires Valid()
      modifies this`completed, irpQueue
      ensures Valid() && found == (old(Abs()).irps != [])
      ensures var q := old(Abs());
        if found then
          Abs() == q.(irps := q.irps[1..]) && completed == old(completed) + [Completion(q.irps[0], Cancelled, 0, [])]
        else Abs() == q && completed == old(completed)
    {
      hide Queue.Valid, Queue.Contents;
      var irp := PopIrpSection();
      if irp.None? {
        return false;
      }
      completed := completed + [Completion(irp.value, Cancelled, 0, [])];
      return true;
    }

    /** One turn of the second. */
    method FlushPacket() returns (found: bool)
      requires Valid()
      modifies this`freed, packetQueue
      ensures Valid() && found == (old(Abs()).packets != [])
      ensures var q := old(Abs());
        if found then Abs() == q.(packets := q.packets[1..]) && freed == old(freed) + [q.packets[0]]
        else Abs() == q && freed == old(freed)
    {
      hide Queue.Valid, Queue.Contents;
      var p := PopPacketSection();
      if p.None? {
        return false;
      }
      freed := freed + [p.value];
      return true;
    }

    /** The first loop of FlushQueues. */
    method FlushIrps()
      requires Valid()
      modifies this`completed, irpQueue
      ensures Valid() && Abs() == old(Abs()).(irps := [])
      ensures completed == old(completed) + Cancellations(old(Abs()).irps)
    {
      hide Cancellations, Valid, Abs;
      ghost var q := Abs();
      ghost var n := 0;
      NothingCancelled();
      while true
        invariant Valid() && n <= |q.irps|
        invariant Abs() == q.(irps := q.irps[n..])
        invariant completed == old(completed) + Cancellations(q.irps[..n])
        decreases |q.irps| - n
      {
        var found := FlushIrp();
        if !found {
          break;
        }
        CancellationsNext(q.irps, n);
        n := n + 1;
      }
      assert q.irps[..n] == q.irps;
    }

    /** The second loop of FlushQueues. */
    method FlushPackets()
      requires Valid()
      modifies this`freed, packetQueue
      ensures Valid() && Abs() == old(Abs()).(packets := [])
      ensures freed == old(freed) + old(Abs()).packets
    {
      hide Valid, Abs;
      ghost var q := Abs();
      ghost var n := 0;
      while true
        invariant Valid() && n <= |q.packets|
        invariant Abs() == q.(packets := q.packets[n..])
        invariant freed == old(freed) + q.packets[..n]
        decreases |q.packets| - n
      {
        var found := FlushPacket();
        if !found {
          break;
        }
        n := n + 1;
      }
      assert q.packets[..n] == q.packets;
    }

    /** FlushQueues, without the injection queue. */
    method Flush()
      requires Valid()
      modifies this`completed, this`freed, packetQueue, irpQueue
      ensures Valid() && Abs() == Queues([], [])
      ensures completed == old(completed) + Cancellations(old(Abs()).irps)
      ensures freed == old(freed) + old(Abs()).packets
    {
      FlushIrps();
      FlushPackets();
    }

    method ServeOne(op: Op)
      requires Valid()
      modifies this, packetQueue, irpQueue, packetQueue.data, irpQueue.data
      ensures Valid() && Now() == Handled(old(Now()), op)
    {
      hide Queue.Valid, Queue.Contents, Deliveries, Cancellations, Without, Delivery;
      match op
      case TransmitOp(p) => Transmit(p);
      case ReadOp(irp) => var _ := Read(irp);
      case CancelOp(irp) => Cancel(irp);
      case FlushOp => Flush();
      case InterfaceOp(running) => interfaceIsRunning := running;
      case TapOp(running) => tapIsRunning := running;
    }

    /**
     * Any run of operations, each finished before the next begins: queues, completions, freed
     * packets and counters are those of the run, and no packet and read wait for each other.
     */
    method Serve(script: seq<Op>)
      requires Valid()
      modifies this, packetQueue, irpQueue, packetQueue.data, irpQueue.data
      ensures Valid() && Now() == HandledAll(old(Now()), script)
      ensures old(NeverBoth(Abs())) ==> NeverBoth(Abs())
    {
      hide Valid, Handled, Abs;
      assert script[..0] == [];
      for k := 0 to |script|
        invariant Valid() && Now() == HandledAll(old(Now()), script[..k])
      {
        ServeOne(script[k]);
        assert script[..k + 1][..k] == script[..k];
      }
      assert script[..|script|] == script;
      if old(NeverBoth(Abs())) {
        NeverBothThroughout(old(Now()), script, |script|);
      }
    }
  }

  /** After `n` pairs there are that many fewer, and the next one is at the heads. */
  lemma PairCountRest(q: Queues, n: nat, up: bool)
    requires n <= PairCount(q, up)
    ensures PairCount(Queues(q.packets[n..], q.irps[n..]), up) == PairCount(q, up) - n
    ensures n < PairCount(q, up) ==>
      && q.packets[n..][1..] == q.packets[n + 1..] && q.packets[n..][0] == q.packets[n]
      && q.irps[n..][1..] == q.irps[n + 1..] && q.irps[n..][0] == q.irps[n]
      && q.packets[..n + 1] == q.packets[..n] + [q.packets[n]]
  {
  }

  /** In order, each request gets its packet, or nothing. */
  lemma OneByOne(irps: seq<Irp>, packets: seq<Packet>)
    requires |irps| == |packets|
    ensures forall i :: 0 <= i < |irps| ==> Deliveries(irps, packets)[i] == Delivery(irps[i], packets[i])
    ensures forall i :: 0 <= i < |irps| ==> Cancellations(irps)[i] == Completion(irps[i], Cancelled, 0, [])
  {
  }

  lemma NothingDelivered()
    ensures Deliveries([], []) == []
  {
  }

  lemma NothingCancelled()
    ensures Cancellations([]) == []
  {
  }

  lemma CancellationsNext(irps: seq<Irp>, n: nat)
    requires n < |irps|
    ensures Cancellations(irps[..n + 1]) == Cancellations(irps[..n]) + [Completion(irps[n], Cancelled, 0, [])]
  {
  }

  lemma DeliveriesNext(irps: seq<Irp>, packets: seq<Packet>, n: nat)
    requires n < |irps| && n < |packets|
    ensures Deliveries(irps[..n + 1], packets[..n + 1]) ==
      Deliveries(irps[..n], packets[..n]) + [Delivery(irps[n], packets[n])]
  {
  }
}
