/** What every step of the packet engine keeps. */
module PacketInvariants {
  import opened Collections
  import opened Accounting
  import opened PacketEngine

  //
  // Views of a state
  //

  ghost function IrpsHeld(threads: map<nat, Thread>): map<nat, Irp> {
    map t | t in threads && IrpOf(threads[t]).Some? :: IrpOf(threads[t]).value
  }

  ghost function PacketsHeld(threads: map<nat, Thread>): map<nat, Packet> {
    map t | t in threads && PacketOf(threads[t]).Some? :: PacketOf(threads[t]).value
  }

  ghost function CompletedIrps(completed: seq<Completion>): seq<Irp> {
    seq(|completed|, i requires 0 <= i < |completed| => completed[i].irp)
  }

  ghost function DepartedPackets(departed: seq<Departure>): seq<Packet> {
    seq(|departed|, i requires 0 <= i < |departed| => departed[i].p)
  }

  /** The requests that were given a packet, in the order in which they were. */
  ghost function MatchedIrps(departed: seq<Departure>): seq<Irp> {
    if departed == [] then []
    else
      var d := departed[|departed| - 1];
      MatchedIrps(departed[..|departed| - 1]) + if d.fate.Matched? then [d.fate.irp] else []
  }

  //
  // The invariants
  //

  /** Every request is in one place: with one thread, or in the queue once, or completed once. */
  ghost predicate IrpsAccounted(s: State) {
    Accounted(s.irpPlace, IrpsHeld(s.threads), s.q.irps, CompletedIrps(s.log.completed))
  }

  /** Every packet buffer is in one place: with one thread, or queued once, or freed once. */
  ghost predicate PacketsAccounted(s: State) {
    Accounted(s.packetPlace, PacketsHeld(s.threads), s.q.packets, s.log.freed)
  }

  ghost predicate Bounded(s: State) {
    |s.q.packets| <= PACKET_QUEUE_SIZE && |s.q.irps| <= IRP_QUEUE_SIZE
  }

  /** Packets leave in the order they were accepted; nothing is lost, nothing is made up. */
  ghost predicate PacketsInOrder(s: State) {
    DepartedPackets(s.log.departed) + s.q.packets == s.log.accepted
  }

  /** Requests are matched in the order they were admitted; only withdrawn ones are missing. */
  ghost predicate IrpsInOrder(s: State) {
    && MatchedIrps(s.log.departed) + s.q.irps == Without(s.log.admitted, s.log.withdrawn)
    && NoDuplicates(s.log.admitted)
    && (forall irp :: irp in s.log.withdrawn ==> irp in s.log.admitted)
  }

  /** Requests still on their way to the queue have not been admitted, admitted ones are known. */
  ghost predicate AdmissionsKnown(s: State) {
    && (forall irp :: irp in s.log.admitted ==> irp in s.irpPlace)
    && (forall t :: t in s.threads && Unadmitted(s.threads[t]) ==> IrpOf(s.threads[t]).value !in s.log.admitted)
  }

  /** A thread that cancels or delivers has taken the request from the queue. */
  ghost predicate HoldingsRecorded(s: State) {
    && (forall t :: t in s.threads && s.threads[t].Cancelling? ==> s.threads[t].irp in s.log.withdrawn)
    && (forall t :: t in s.threads && s.threads[t].Delivering? ==>
          Departure(s.threads[t].p, Matched(s.threads[t].irp)) in s.log.departed)
  }

  /** How a completion came about. */
  ghost predicate Explained(c: Completion, log: Log) {
    match c.status
    case Cancelled => c == Completion(c.irp, Cancelled, 0, []) && c.irp in log.withdrawn
    case Unsuccessful => c == Completion(c.irp, Unsuccessful, 0, []) && c.irp !in log.admitted
    case _ => exists p :: Departure(p, Matched(c.irp)) in log.departed && c == Delivery(c.irp, p)
  }

  ghost predicate CompletionsExplained(s: State) {
    forall c :: c in s.log.completed ==> Explained(c, s.log)
  }

  /** A matched pair is in the hands of the thread that delivers it, or was delivered. */
  ghost predicate PairDelivered(s: State, irp: Irp, p: Packet) {
    && irp in s.irpPlace
    && match s.irpPlace[irp]
       case AtThread(t) => t in s.threads && s.threads[t].Delivering? && s.threads[t].irp == irp && s.threads[t].p == p
       case Queued => false
       case Finished => Delivery(irp, p) in s.log.completed
  }

  ghost predicate PairsDelivered(s: State) {
    forall p, irp :: Departure(p, Matched(irp)) in s.log.departed ==> PairDelivered(s, irp, p)
  }

  ghost predicate Inv(s: State) {
    && IrpsAccounted(s) && PacketsAccounted(s) && Bounded(s)
    && PacketsInOrder(s) && IrpsInOrder(s)
    && AdmissionsKnown(s) && HoldingsRecorded(s)
    && CompletionsExplained(s) && PairsDelivered(s)
  }

  //
  // Views after a change
  //

  lemma IrpsHeldUpdate(threads: map<nat, Thread>, t: nat, th: Thread)
    ensures IrpsHeld(threads[t := th]) ==
      if IrpOf(th).Some? then IrpsHeld(threads)[t := IrpOf(th).value] else IrpsHeld(threads) - {t}
  {
  }

  lemma PacketsHeldUpdate(threads: map<nat, Thread>, t: nat, th: Thread)
    ensures PacketsHeld(threads[t := th]) ==
      if PacketOf(th).Some? then PacketsHeld(threads)[t := PacketOf(th).value] else PacketsHeld(threads) - {t}
  {
  }

  lemma CompletedIrpsAppend(completed: seq<Completion>, c: Completion)
    ensures CompletedIrps(completed + [c]) == CompletedIrps(completed) + [c.irp]
  {
  }

  lemma DepartedPacketsAppend(departed: seq<Departure>, d: Departure)
    ensures DepartedPackets(departed + [d]) == DepartedPackets(departed) + [d.p]
  {
  }

  lemma MatchedIrpsAppend(departed: seq<Departure>, d: Departure)
    ensures MatchedIrps(departed + [d]) == MatchedIrps(departed) + if d.fate.Matched? then [d.fate.irp] else []
  {
    assert (departed + [d])[..|departed|] == departed;
  }

  lemma {:induction false} MatchedIrpsMembers(departed: seq<Departure>, p: Packet, irp: Irp)
    requires Departure(p, Matched(irp)) in departed
    ensures irp in MatchedIrps(departed)
  {
    var front := departed[..|departed| - 1];
    assert departed == front + [departed[|departed| - 1]];
    if departed[|departed| - 1] != Departure(p, Matched(irp)) {
      MatchedIrpsMembers(front, p, irp);
    }
  }

  //
  // What a step may do, effect by effect
  //

  ghost predicate Legal(th: Thread, q: Queues, th': Thread, q': Queues, e: Effect) {
    match e
    case Quiet =>
      && q' == q && IrpOf(th') == IrpOf(th) && PacketOf(th') == PacketOf(th)
      && (Unadmitted(th') <==> Unadmitted(th)) && (th'.Cancelling? ==> th' == th) && (th'.Delivering? ==> th' == th)
    case Accepts(p) =>
      && th == TxPushing(p) && th' == TxMatching
      && q' == q.(packets := q.packets + [p]) && |q.packets| < PACKET_QUEUE_SIZE
    case Pairs(irp, p, atOnce) =>
      && th' == Delivering(irp, p, !atOnce)
      && q.packets == [p] + q'.packets
      && (if atOnce then th == RdServing(irp) && q.irps == [] == q'.irps
          else th == TxMatching && q.irps == [irp] + q'.irps)
    case Admits(irp) =>
      && th == RdPending(irp) && th' == Done
      && q' == q.(irps := q.irps + [irp]) && |q.irps| < IRP_QUEUE_SIZE
    case Withdraws(irp) =>
      && (th == CnExtracting(irp) || th == FlIrps)
      && th'.Cancelling? && th'.irp == irp
      && irp in q.irps
      && q' == q.(irps := q'.irps)
      && (q'.irps == Without(q.irps, {irp}) || q.irps == [irp] + q'.irps)
    case Flushes(p) =>
      th == FlPackets && th' == FlFreeing(p) && q.packets == [p] + q'.packets && q'.irps == q.irps
    case Delivers(irp, p) =>
      th.Delivering? && th.irp == irp && th.p == p && q' == q && (th' == TxMatching || th' == Done)
    case Rejects(c) =>
      && q' == q && (th' == Done || th' == FlIrps)
      && ((c.status == Cancelled && th.Cancelling?) || (c.status == Unsuccessful && th.RdFailing?))
      && c == Completion(th.irp, c.status, 0, [])
    case Frees(p) =>
      (th == TxDropping(p) || th == FlFreeing(p)) && (th' == Done || th' == FlPackets) && q' == q
  }

  lemma TransmitIsLegal(th: Thread, q: Queues, obs: bool)
    requires th.TxFiltering? || th.TxPushing? || th.TxDropping? || th.TxMatching? || th.Delivering?
    ensures var (th', q', e) := Next(th, q, obs); Legal(th, q, th', q', e)
  {
    hide Delivery, ExtractIrp;
  }

  lemma ReadIsLegal(th: Thread, q: Queues, obs: bool)
    requires th.RdChecking? || th.RdServing? || th.RdPending? || th.RdFailing?
    ensures var (th', q', e) := Next(th, q, obs); Legal(th, q, th', q', e)
  {
    hide Delivery, ExtractIrp;
  }

  lemma CancelIsLegal(th: Thread, q: Queues, obs: bool)
    requires th.CnExtracting? || th.Cancelling? || th.Done?
    ensures var (th', q', e) := Next(th, q, obs); Legal(th, q, th', q', e)
  {
    hide Without;
    if th.CnExtracting? && th.target !in q.irps {
      WithoutAbsent(q.irps, {th.target});
    }
  }

  lemma FlushIsLegal(th: Thread, q: Queues, obs: bool)
    requires th.FlIrps? || th.FlPackets? || th.FlFreeing?
    ensures var (th', q', e) := Next(th, q, obs); Legal(th, q, th', q', e)
  {
    hide Without, ExtractIrp;
  }

  /** Every step of every thread is legal. */
  lemma NextIsLegal(th: Thread, q: Queues, obs: bool)
    ensures var (th', q', e) := Next(th, q, obs); Legal(th, q, th', q', e)
  {
    hide Next, Legal;
    match th
    case TxFiltering(_) => TransmitIsLegal(th, q, obs);
    case TxPushing(_) => TransmitIsLegal(th, q, obs);
    case TxDropping(_) => TransmitIsLegal(th, q, obs);
    case TxMatching => TransmitIsLegal(th, q, obs);
    case Delivering(_, _, _) => TransmitIsLegal(th, q, obs);
    case RdChecking(_) => ReadIsLegal(th, q, obs);
    case RdServing(_) => ReadIsLegal(th, q, obs);
    case RdPending(_) => ReadIsLegal(th, q, obs);
    case RdFailing(_) => ReadIsLegal(th, q, obs);
    case FlIrps => FlushIsLegal(th, q, obs);
    case FlPackets => FlushIsLegal(th, q, obs);
    case FlFreeing(_) => FlushIsLegal(th, q, obs);
    case _ => CancelIsLegal(th, q, obs);
  }

  //
  // Requests: exactly one place
  //

  lemma KeepsIrpsAccounted(s: State, t: nat, th: Thread, q: Queues, e: Effect)
    requires t in s.threads && Legal(s.threads[t], s.q, th, q, e) && IrpsAccounted(s)
    ensures Accounted(IrpPlaces(s.irpPlace, t, e), IrpsHeld(s.threads[t := th]), q.irps,
                      CompletedIrps(Record(s.log, e).completed))
  {
    hide Accounted;
    var place, held, queue, done := s.irpPlace, IrpsHeld(s.threads), s.q.irps, CompletedIrps(s.log.completed);
    IrpsHeldUpdate(s.threads, t, th);
    Stay(place, held, queue, done, t);
    AccountedNoDuplicates(place, held, queue, done);
    match e
    case Pairs(irp, _, atOnce) => if !atOnce { Dequeue(place, held, queue, done, t); }
    case Admits(irp) => Enqueue(place, held, queue, done, t);
    case Withdraws(irp) =>
      Extract(place, held, queue, done, t, irp);
      if queue[0] == irp {
        WithoutHead(queue);
      }
    case Delivers(irp, p) =>
      CompletedIrpsAppend(s.log.completed, Delivery(irp, p));
      Finish(place, held, queue, done, t);
    case Rejects(c) =>
      CompletedIrpsAppend(s.log.completed, c);
      Finish(place, held, queue, done, t);
    case _ =>
  }

  //
  // Packet buffers: exactly one place
  //

  lemma KeepsPacketsAccounted(s: State, t: nat, th: Thread, q: Queues, e: Effect)
    requires t in s.threads && Legal(s.threads[t], s.q, th, q, e) && PacketsAccounted(s)
    ensures Accounted(PacketPlaces(s.packetPlace, t, e), PacketsHeld(s.threads[t := th]), q.packets,
                      Record(s.log, e).freed)
  {
    hide Accounted;
    var place, held, queue, done := s.packetPlace, PacketsHeld(s.threads), s.q.packets, s.log.freed;
    PacketsHeldUpdate(s.threads, t, th);
    Stay(place, held, queue, done, t);
    match e
    case Pairs(_, _, _) => Dequeue(place, held, queue, done, t);
    case Flushes(_) => Dequeue(place, held, queue, done, t);
    case Accepts(_) => Enqueue(place, held, queue, done, t);
    case Delivers(_, _) => Finish(place, held, queue, done, t);
    case Frees(_) => Finish(place, held, queue, done, t);
    case _ =>
  }

  //
  // Order and conservation
  //

  lemma KeepsPacketsInOrder(s: State, t: nat, th: Thread, q: Queues, e: Effect)
    requires t in s.threads && Legal(s.threads[t], s.q, th, q, e) && PacketsInOrder(s) && Bounded(s)
    ensures DepartedPackets(Record(s.log, e).departed) + q.packets == Record(s.log, e).accepted
    ensures |q.packets| <= PACKET_QUEUE_SIZE && |q.irps| <= IRP_QUEUE_SIZE
  {
    match e
    case Pairs(irp, p, _) => DepartedPacketsAppend(s.log.departed, Departure(p, Matched(irp)));
    case Flushes(p) => DepartedPacketsAppend(s.log.departed, Departure(p, Flushed));
    case Withdraws(irp) => WithoutMembers(s.q.irps, {irp});
    case _ =>
  }

  /** Withdrawing a queued request: the matched ones stay, the queue loses just that one. */
  lemma WithdrawKeepsIrpsInOrder(matched: seq<Irp>, queue: seq<Irp>, admitted: seq<Irp>, gone: set<Irp>, irp: Irp)
    requires matched + queue == Without(admitted, gone)
    requires NoDuplicates(admitted) && irp in queue
    ensures matched + Without(queue, {irp}) == Without(admitted, gone + {irp})
    ensures irp in admitted
    ensures queue[0] == irp ==> Without(queue, {irp}) == queue[1..]
  {
    WithoutNoDuplicates(admitted, gone);
    WithoutMembers(admitted, gone);
    NoDuplicatesParts(matched, queue);
    assert irp in matched + queue;
    WithoutTwice(admitted, gone, {irp});
    WithoutAppend(matched, queue, {irp});
    WithoutAbsent(matched, {irp});
    if queue[0] == irp {
      WithoutHead(queue);
    }
  }

  /** Admitting a request appends it, to the matched ones if it is served at once. */
  lemma AdmitKeepsIrpsInOrder(inOrder: seq<Irp>, admitted: seq<Irp>, gone: set<Irp>, irp: Irp)
    requires inOrder == Without(admitted, gone)
    requires NoDuplicates(admitted) && irp !in admitted
    requires forall x :: x in gone ==> x in admitted
    ensures inOrder + [irp] == Without(admitted + [irp], gone)
    ensures NoDuplicates(admitted + [irp])
  {
    WithoutLast(admitted, irp, gone);
  }

  lemma KeepsIrpsInOrder(s: State, t: nat, th: Thread, q: Queues, e: Effect)
    requires t in s.threads && Legal(s.threads[t], s.q, th, q, e) && IrpsInOrder(s)
    requires Unadmitted(s.threads[t]) ==> IrpOf(s.threads[t]).value !in s.log.admitted
    ensures var log := Record(s.log, e);
      && MatchedIrps(log.departed) + q.irps == Without(log.admitted, log.withdrawn)
      && NoDuplicates(log.admitted)
      && forall irp :: irp in log.withdrawn ==> irp in log.admitted
  {
    hide Without, MatchedIrps;
    var log := s.log;
    var matched := MatchedIrps(log.departed);
    match e
    case Pairs(irp, p, atOnce) =>
      MatchedIrpsAppend(log.departed, Departure(p, Matched(irp)));
      if atOnce {
        AdmitKeepsIrpsInOrder(matched, log.admitted, log.withdrawn, irp);
      } else {
        assert matched + s.q.irps == matched + [irp] + q.irps;
      }
    case Flushes(p) => MatchedIrpsAppend(log.departed, Departure(p, Flushed));
    case Admits(irp) =>
      AdmitKeepsIrpsInOrder(matched + s.q.irps, log.admitted, log.withdrawn, irp);
      assert matched + s.q.irps + [irp] == matched + q.irps;
    case Withdraws(irp) =>
      WithdrawKeepsIrpsInOrder(matched, s.q.irps, log.admitted, log.withdrawn, irp);
    case _ =>
  }

  lemma KeepsAdmissionsKnown(s: State, t: nat, th: Thread, q: Queues, e: Effect)
    requires t in s.threads && Legal(s.threads[t], s.q, th, q, e)
    requires AdmissionsKnown(s) && IrpsAccounted(s)
    ensures AdmissionsKnown(State(q, s.threads[t := th], IrpPlaces(s.irpPlace, t, e), PacketPlaces(s.packetPlace, t, e),
                               Record(s.log, e)))
  {
    hide Accounted, PacketPlaces, Without, Delivery;
    forall u | u in s.threads && IrpOf(s.threads[u]).Some?
      ensures IrpOf(s.threads[u]).value in s.irpPlace
      ensures s.irpPlace[IrpOf(s.threads[u]).value] == AtThread(u)
    {
      HolderPlace(s.irpPlace, IrpsHeld(s.threads), s.q.irps, CompletedIrps(s.log.completed), u);
    }
  }

  lemma KeepsHoldingsRecorded(s: State, t: nat, th: Thread, q: Queues, e: Effect)
    requires t in s.threads && Legal(s.threads[t], s.q, th, q, e) && HoldingsRecorded(s)
    ensures HoldingsRecorded(State(q, s.threads[t := th], IrpPlaces(s.irpPlace, t, e), PacketPlaces(s.packetPlace, t, e),
                                Record(s.log, e)))
  {
  }

  //
  // Completions
  //

  /** An explanation stands when the log grows: packets stay departed, requests withdrawn. */
  lemma StillExplained(c: Completion, log: Log, e: Effect)
    requires Explained(c, log)
    requires c.status == Unsuccessful ==> !(e.Admits? && e.irp == c.irp) && !(e.Pairs? && e.irp == c.irp)
    ensures Explained(c, Record(log, e))
  {
    if c.status == Success || c.status == BufferOverflow {
      var p :| Departure(p, Matched(c.irp)) in log.departed && c == Delivery(c.irp, p);
      assert Departure(p, Matched(c.irp)) in Record(log, e).departed;
    }
  }

  lemma KeepsCompletionsExplained(s: State, t: nat, th: Thread, q: Queues, e: Effect)
    requires t in s.threads && Legal(s.threads[t], s.q, th, q, e)
    requires AdmissionsKnown(s) && HoldingsRecorded(s) && IrpsAccounted(s) && CompletionsExplained(s)
    ensures forall c :: c in Record(s.log, e).completed ==> Explained(c, Record(s.log, e))
  {
    var log' := Record(s.log, e);
    forall c | c in s.log.completed
      ensures Explained(c, log')
    {
      FinishedIrp(s, c);
      assert e.Admits? || (e.Pairs? && e.atOnce) ==> s.irpPlace[IrpsHeld(s.threads)[t]] == AtThread(t);
      if e.Pairs? && !e.atOnce {
        assert e.irp in s.q.irps;
      }
      StillExplained(c, s.log, e);
    }
    if e.Delivers? {
      var c := Delivery(e.irp, e.p);
      assert Departure(e.p, Matched(c.irp)) in log'.departed;
      assert Explained(c, log');
    }
  }

  lemma FinishedIrp(s: State, c: Completion)
    requires IrpsAccounted(s) && c in s.log.completed
    ensures c.irp in s.irpPlace && s.irpPlace[c.irp] == Finished
  {
    var i :| 0 <= i < |s.log.completed| && s.log.completed[i] == c;
    assert CompletedIrps(s.log.completed)[i] == c.irp;
  }

  /** The requests that a step can touch: the one its thread holds, and those in the queue. */
  ghost predicate PlacesKnown(s: State, t: nat)
    requires t in s.threads
  {
    && (IrpOf(s.threads[t]).Some? ==>
          IrpOf(s.threads[t]).value in s.irpPlace && s.irpPlace[IrpOf(s.threads[t]).value] == AtThread(t))
    && (forall irp :: irp in s.q.irps ==> irp in s.irpPlace && s.irpPlace[irp] == Queued)
  }

  lemma AccountedPlaces(s: State, t: nat)
    requires t in s.threads && IrpsAccounted(s)
    ensures PlacesKnown(s, t)
  {
    if IrpOf(s.threads[t]).Some? {
      HolderPlace(s.irpPlace, IrpsHeld(s.threads), s.q.irps, CompletedIrps(s.log.completed), t);
    }
  }

  /** A pair matched before stays delivered, or in the same hands until it is. */
  lemma KeepsPair(s: State, t: nat, th: Thread, q: Queues, e: Effect, irp: Irp, p: Packet)
    requires t in s.threads && Legal(s.threads[t], s.q, th, q, e)
    requires PlacesKnown(s, t) && PairDelivered(s, irp, p)
    ensures PairDelivered(State(q, s.threads[t := th], IrpPlaces(s.irpPlace, t, e), PacketPlaces(s.packetPlace, t, e),
                                Record(s.log, e)), irp, p)
  {
    hide Without, PacketPlaces, Delivery;
    assert e.Pairs? && !e.atOnce ==> s.q.irps[0] == e.irp && e.irp in s.q.irps;
  }

  lemma KeepsPairsDelivered(s: State, t: nat, th: Thread, q: Queues, e: Effect)
    requires t in s.threads && Legal(s.threads[t], s.q, th, q, e)
    requires IrpsAccounted(s) && PairsDelivered(s)
    ensures PairsDelivered(State(q, s.threads[t := th], IrpPlaces(s.irpPlace, t, e), PacketPlaces(s.packetPlace, t, e),
                                 Record(s.log, e)))
  {
    hide IrpsAccounted, PacketPlaces, Delivery;
    AccountedPlaces(s, t);
    var s' := State(q, s.threads[t := th], IrpPlaces(s.irpPlace, t, e), PacketPlaces(s.packetPlace, t, e),
                    Record(s.log, e));
    forall p, irp | Departure(p, Matched(irp)) in s'.log.departed
      ensures PairDelivered(s', irp, p)
    {
      if Departure(p, Matched(irp)) in s.log.departed {
        KeepsPair(s, t, th, q, e, irp, p);
      }
    }
  }
}
