/** What holds after every run of the packet engine, whatever the interleaving. */
module PacketTheorems {
  import opened Collections
  import opened Accounting
  import opened PacketEngine
  import opened PacketInvariants

  lemma SpawnKeepsPairs(s: State, t: nat, th: Thread)
    requires PairsDelivered(s) && CanSpawn(s, t, th)
    ensures PairsDelivered(Spawn(s, t, th))
  {
    var s' := Spawn(s, t, th);
    forall p, irp | Departure(p, Matched(irp)) in s.log.departed
      ensures PairDelivered(s', irp, p)
    {
      assert PairDelivered(s, irp, p);
    }
  }

  lemma SpawnKeepsInv(s: State, t: nat, th: Thread)
    requires Inv(s) && CanSpawn(s, t, th)
    ensures Inv(Spawn(s, t, th))
  {
    hide Spawn, IrpsAccounted, PacketsAccounted, Bounded, PacketsInOrder, IrpsInOrder, AdmissionsKnown,
      HoldingsRecorded, CompletionsExplained, PairsDelivered;
    SpawnKeepsAccounts(s, t, th);
    SpawnKeepsPairs(s, t, th);
    SpawnKeepsOrder(s, t, th);
  }

  /** A new thread changes no queue and no log; the request it brings was not admitted before. */
  lemma SpawnKeepsOrder(s: State, t: nat, th: Thread)
    requires Inv(s) && CanSpawn(s, t, th)
    ensures var s' := Spawn(s, t, th);
      && Bounded(s') && PacketsInOrder(s') && IrpsInOrder(s')
      && AdmissionsKnown(s') && HoldingsRecorded(s') && CompletionsExplained(s')
  {
    hide IrpsAccounted, PacketsAccounted, PairsDelivered, Explained, Without, NoDuplicates, DepartedPackets, MatchedIrps;
  }

  lemma SpawnKeepsAccounts(s: State, t: nat, th: Thread)
    requires IrpsAccounted(s) && PacketsAccounted(s) && CanSpawn(s, t, th)
    ensures IrpsAccounted(Spawn(s, t, th)) && PacketsAccounted(Spawn(s, t, th))
  {
    hide Accounted;
    IrpsHeldUpdate(s.threads, t, th);
    PacketsHeldUpdate(s.threads, t, th);
    Stay(s.irpPlace, IrpsHeld(s.threads), s.q.irps, CompletedIrps(s.log.completed), t);
    Stay(s.packetPlace, PacketsHeld(s.threads), s.q.packets, s.log.freed, t);
    match th
    case RdChecking(irp) => Arrive(s.irpPlace, IrpsHeld(s.threads), s.q.irps, CompletedIrps(s.log.completed), t, irp);
    case TxFiltering(p) => Arrive(s.packetPlace, PacketsHeld(s.threads), s.q.packets, s.log.freed, t, p);
    case _ =>
  }

  lemma StepKeepsInv(s: State, t: nat, obs: bool)
    requires Inv(s) && t in s.threads
    ensures Inv(Step(s, t, obs))
  {
    hide Accounted, IrpsHeld, PacketsHeld, CompletedIrps, DepartedPackets, MatchedIrps, Without, Explained, PairDelivered,
      NoDuplicates, Legal, Next, Record, IrpPlaces, PacketPlaces;
    var (th, q, e) := Next(s.threads[t], s.q, obs);
    NextIsLegal(s.threads[t], s.q, obs);
    KeepsIrpsAccounted(s, t, th, q, e);
    KeepsPacketsAccounted(s, t, th, q, e);
    KeepsPacketsInOrder(s, t, th, q, e);
    KeepsIrpsInOrder(s, t, th, q, e);
    KeepsAdmissionsKnown(s, t, th, q, e);
    KeepsHoldingsRecorded(s, t, th, q, e);
    KeepsCompletionsExplained(s, t, th, q, e);
    KeepsPairsDelivered(s, t, th, q, e);
  }

  /** The invariants hold after every run. */
  lemma {:induction false} RunKeepsInv(run: seq<Action>)
    ensures Inv(After(run))
  {
    if run == [] {
    } else {
      var s := After(run[..|run| - 1]);
      RunKeepsInv(run[..|run| - 1]);
      match run[|run| - 1]
      case Enter(t, th) => if CanSpawn(s, t, th) { SpawnKeepsInv(s, t, th); }
      case Advance(t, obs) => if t in s.threads { StepKeepsInv(s, t, obs); }
    }
  }

  //
  // Who has entered
  //

  /** The requests that have entered the driver in a run. */
  ghost function IssuedIrps(run: seq<Action>): set<Irp> {
    if run == [] then {}
    else
      var a, front := run[|run| - 1], run[..|run| - 1];
      IssuedIrps(front) + if a.Enter? && a.th.RdChecking? && Enabled(After(front), a) then {a.th.irp} else {}
  }

  /** The packet buffers that have entered the driver in a run. */
  ghost function IssuedPackets(run: seq<Action>): set<Packet> {
    if run == [] then {}
    else
      var a, front := run[|run| - 1], run[..|run| - 1];
      IssuedPackets(front) + if a.Enter? && a.th.TxFiltering? && Enabled(After(front), a) then {a.th.p} else {}
  }

  lemma {:induction false} IssuedHaveAPlace(run: seq<Action>)
    ensures After(run).irpPlace.Keys == IssuedIrps(run)
    ensures After(run).packetPlace.Keys == IssuedPackets(run)
  {
    hide Step, IrpsAccounted, PacketsAccounted;
    if run == [] {
    } else {
      var front := run[..|run| - 1];
      IssuedHaveAPlace(front);
      RunKeepsInv(front);
      var s := After(front);
      match run[|run| - 1]
      case Enter(_, _) =>
      case Advance(t, obs) => if t in s.threads { StepKeepsKeys(s, t, obs); }
    }
  }

  lemma StepKeepsKeys(s: State, t: nat, obs: bool)
    requires IrpsAccounted(s) && PacketsAccounted(s) && t in s.threads
    ensures Step(s, t, obs).irpPlace.Keys == s.irpPlace.Keys
    ensures Step(s, t, obs).packetPlace.Keys == s.packetPlace.Keys
  {
    hide Accounted;
    var th := s.threads[t];
    var (th', q, e) := Next(th, s.q, obs);
    NextIsLegal(th, s.q, obs);
    LegalTouchesKnownIrps(s, t, th', q, e);
    LegalTouchesKnownPackets(s, t, th', q, e);
  }

  lemma LegalTouchesKnownIrps(s: State, t: nat, th: Thread, q: Queues, e: Effect)
    requires IrpsAccounted(s) && t in s.threads && Legal(s.threads[t], s.q, th, q, e)
    ensures IrpPlaces(s.irpPlace, t, e).Keys == s.irpPlace.Keys
  {
    if IrpOf(s.threads[t]).Some? {
      assert IrpsHeld(s.threads)[t] == IrpOf(s.threads[t]).value;
    }
    if e.Withdraws? || (e.Pairs? && !e.atOnce) {
      assert e.irp in s.q.irps;
    }
  }

  lemma LegalTouchesKnownPackets(s: State, t: nat, th: Thread, q: Queues, e: Effect)
    requires PacketsAccounted(s) && t in s.threads && Legal(s.threads[t], s.q, th, q, e)
    ensures PacketPlaces(s.packetPlace, t, e).Keys == s.packetPlace.Keys
  {
    if PacketOf(s.threads[t]).Some? {
      assert PacketsHeld(s.threads)[t] == PacketOf(s.threads[t]).value;
    }
    if e.Pairs? || e.Flushes? {
      assert e.p in s.q.packets;
    }
  }

  //
  // The theorems
  //

  /**
   * Every read request is completed at most once, and at every moment it is completed, or in
   * the queue exactly once, or held by exactly one thread: never two of these, never none.
   */
  lemma IrpInExactlyOnePlace(run: seq<Action>, irp: Irp)
    requires irp in IssuedIrps(run)
    ensures var s := After(run);
      var inQueue, completed := multiset(s.q.irps)[irp], multiset(CompletedIrps(s.log.completed))[irp];
      && inQueue + completed <= 1
      && (inQueue + completed == 0 <==> exists t :: t in s.threads && IrpOf(s.threads[t]) == Some(irp))
      && (forall t, u | t in s.threads && u in s.threads ::
            IrpOf(s.threads[t]) == Some(irp) == IrpOf(s.threads[u]) ==> t == u)
  {
    var s := After(run);
    RunKeepsInv(run);
    IssuedHaveAPlace(run);
    var held := IrpsHeld(s.threads);
    ExactlyOnePlace(s.irpPlace, held, s.q.irps, CompletedIrps(s.log.completed), irp);
    assert forall t :: t in s.threads && IrpOf(s.threads[t]) == Some(irp) <==> t in held && held[t] == irp;
  }

  /** The same for packet buffers: each is freed at most once, and never lost. */
  lemma PacketInExactlyOnePlace(run: seq<Action>, p: Packet)
    requires p in IssuedPackets(run)
    ensures var s := After(run);
      var inQueue, freed := multiset(s.q.packets)[p], multiset(s.log.freed)[p];
      && inQueue + freed <= 1
      && (inQueue + freed == 0 <==> exists t :: t in s.threads && PacketOf(s.threads[t]) == Some(p))
      && (forall t, u | t in s.threads && u in s.threads ::
            PacketOf(s.threads[t]) == Some(p) == PacketOf(s.threads[u]) ==> t == u)
  {
    var s := After(run);
    RunKeepsInv(run);
    IssuedHaveAPlace(run);
    var held := PacketsHeld(s.threads);
    ExactlyOnePlace(s.packetPlace, held, s.q.packets, s.log.freed, p);
    assert forall t :: t in s.threads && PacketOf(s.threads[t]) == Some(p) <==> t in held && held[t] == p;
  }

  ghost function FlushedPackets(departed: seq<Departure>): seq<Packet> {
    if departed == [] then []
    else
      var d := departed[|departed| - 1];
      FlushedPackets(departed[..|departed| - 1]) + if d.fate.Flushed? then [d.p] else []
  }

  lemma {:induction false} MatchedOrFlushed(departed: seq<Departure>)
    ensures |departed| == |MatchedIrps(departed)| + |FlushedPackets(departed)|
  {
    if departed == [] {
    } else {
      MatchedOrFlushed(departed[..|departed| - 1]);
    }
  }

  /**
   * The packets that left the queue followed by those still in it are the accepted packets,
   * in the order they were accepted; accepted = matched + flushed + queued.
   */
  lemma PacketsConserved(run: seq<Action>)
    ensures var s := After(run);
      && DepartedPackets(s.log.departed) + s.q.packets == s.log.accepted
      && |s.log.accepted| == |MatchedIrps(s.log.departed)| + |FlushedPackets(s.log.departed)| + |s.q.packets|
      && |s.q.packets| <= 64
  {
    RunKeepsInv(run);
    MatchedOrFlushed(After(run).log.departed);
  }

  /**
   * The requests matched so far followed by those waiting are the admitted requests, in the
   * order of admission, with exactly the withdrawn ones left out.
   */
  lemma IrpsMatchedInOrder(run: seq<Action>)
    ensures var s := After(run);
      && MatchedIrps(s.log.departed) + s.q.irps == Without(s.log.admitted, s.log.withdrawn)
      && NoDuplicates(s.log.admitted)
      && |s.q.irps| <= 16
  {
    RunKeepsInv(run);
  }

  /**
   * What user space sees. A completed request was matched with a packet and carries just that
   * packet, or was cancelled after it had been admitted, or failed without ever having been.
   */
  lemma CompletionsMeanWhatTheySay(run: seq<Action>, c: Completion)
    requires c in After(run).log.completed
    ensures Explained(c, After(run).log)
    ensures c.status == Cancelled ==> c.irp !in MatchedIrps(After(run).log.departed)
    ensures c.status == Unsuccessful ==> c.irp !in MatchedIrps(After(run).log.departed)
  {
    RunKeepsInv(run);
    var s := After(run);
    WithoutMembers(s.log.admitted, s.log.withdrawn);
    if c.irp in MatchedIrps(s.log.departed) {
      assert c.irp in MatchedIrps(s.log.departed) + s.q.irps;
    }
  }

  /** The thread has the packet that left the queue and the request it was matched with. */
  predicate HandsOver(th: Thread, d: Departure)
    requires th.Delivering? && d.fate.Matched?
  {
    th.irp == d.fate.irp && th.p == d.p
  }

  /**
   * The k-th packet to leave the queue is the k-th accepted; if a request was matched with it,
   * that request is completed with this packet's bytes, or one thread is about to do so.
   */
  lemma PairingIsFifo(run: seq<Action>, k: nat)
    requires k < |After(run).log.departed|
    ensures var s := After(run);
      var d := s.log.departed[k];
      && k < |s.log.accepted| && d.p == s.log.accepted[k]
      && (d.fate.Matched? ==>
            if d.fate.irp in CompletedIrps(s.log.completed) then Delivery(d.fate.irp, d.p) in s.log.completed
            else exists t :: t in s.threads && s.threads[t].Delivering? && HandsOver(s.threads[t], d))
  {
    RunKeepsInv(run);
    var s := After(run);
    var d := s.log.departed[k];
    assert DepartedPackets(s.log.departed)[k] == d.p;
    if d.fate.Matched? {
      assert d == Departure(d.p, Matched(d.fate.irp));
      assert PairDelivered(s, d.fate.irp, d.p);
    }
  }

  //
  // What enters and leaves the queues, and when: whatever happens after whatever run
  //

  lemma AfterOneMore(run: seq<Action>, a: Action)
    ensures After(run + [a]) == Apply(After(run), a)
  {
    assert (run + [a])[..|run|] == run;
  }

  /**
   * A thread enters exactly when its number is new and it transmits a new packet, or brings a
   * new request, or cancels any request, or flushes; queues and history stay as they were.
   */
  lemma EntersExactlyWhen(run: seq<Action>, t: nat, th: Thread)
    ensures var s, s' := After(run), After(run + [Enter(t, th)]);
      if t !in s.threads && (|| (th.TxFiltering? && th.p !in IssuedPackets(run))
                             || (th.RdChecking? && th.irp !in IssuedIrps(run))
                             || th.CnExtracting? || th.FlIrps?)
      then s'.threads == s.threads[t := th] && s'.q == s.q && s'.log == s.log
      else s' == s
  {
    hide After, IssuedIrps, IssuedPackets;
    AfterOneMore(run, Enter(t, th));
    IssuedHaveAPlace(run);
  }

  /**
   * A packet is accepted exactly when its transmit takes the queue lock while the device is up
   * and fewer than 64 packets wait; it then goes to the end of the queue. Nothing else makes
   * the queue longer.
   */
  lemma AcceptedExactlyWhen(run: seq<Action>, a: Action)
    ensures var s, s' := After(run), After(run + [a]);
      if a.Advance? && a.t in s.threads && s.threads[a.t].TxPushing? && a.obs && |s.q.packets| < 64 then
        && s'.log.accepted == s.log.accepted + [s.threads[a.t].p]
        && s'.q.packets == s.q.packets + [s.threads[a.t].p]
      else s'.log.accepted == s.log.accepted && |s'.q.packets| <= |s.q.packets|
  {
    hide After, IrpPlaces, PacketPlaces, Without;
    AfterOneMore(run, a);
  }

  /**
   * A packet leaves the queue exactly when a transmit finds both queues non-empty, a read finds
   * a packet and no other read, or a flush finds a packet; it is the one at the head, and goes
   * to the read at the head, to that read, or to nobody.
   */
  lemma DepartedExactlyWhen(run: seq<Action>, a: Action)
    ensures var s, s' := After(run), After(run + [a]);
      var matching := a.Advance? && a.t in s.threads && s.threads[a.t].TxMatching? && a.obs && s.q.irps != [];
      var reading := a.Advance? && a.t in s.threads && s.threads[a.t].RdServing? && a.obs && s.q.irps == [];
      var flushing := a.Advance? && a.t in s.threads && s.threads[a.t].FlPackets?;
      if (matching || reading || flushing) && s.q.packets != [] then
        && s'.q.packets == s.q.packets[1..]
        && s'.log.departed == s.log.departed + [Departure(s.q.packets[0],
             if matching then Matched(s.q.irps[0]) else if reading then Matched(s.threads[a.t].irp) else Flushed)]
      else s'.log.departed == s.log.departed && |s'.q.packets| >= |s.q.packets|
  {
    hide After, IrpPlaces, PacketPlaces, Without;
    AfterOneMore(run, a);
  }

  /**
   * A read is admitted exactly when it finds a packet and no other read, or pends itself while
   * the device is up and fewer than 16 reads wait; it then goes to the end of the queue.
   */
  lemma AdmittedExactlyWhen(run: seq<Action>, a: Action)
    ensures var s, s' := After(run), After(run + [a]);
      var reading := a.Advance? && a.t in s.threads && s.threads[a.t].RdServing?
                     && a.obs && s.q.packets != [] && s.q.irps == [];
      var pending := a.Advance? && a.t in s.threads && s.threads[a.t].RdPending? && a.obs && |s.q.irps| < 16;
      && s'.log.admitted == s.log.admitted + (if reading || pending then [s.threads[a.t].irp] else [])
      && (pending ==> s'.q.irps == s.q.irps + [s.threads[a.t].irp])
      && (!pending ==> |s'.q.irps| <= |s.q.irps|)
  {
    hide After, IrpPlaces, PacketPlaces, Without;
    AfterOneMore(run, a);
    WithoutMembers(After(run).q.irps, if a.Advance? && a.t in After(run).threads && After(run).threads[a.t].CnExtracting?
                                      then {After(run).threads[a.t].target} else {});
  }

  /** A read is withdrawn exactly when its cancellation finds it in the queue, or a flush at the head. */
  lemma WithdrawnExactlyWhen(run: seq<Action>, a: Action)
    ensures var s, s' := After(run), After(run + [a]);
      var cancelling := a.Advance? && a.t in s.threads && s.threads[a.t].CnExtracting? && s.threads[a.t].target in s.q.irps;
      var flushing := a.Advance? && a.t in s.threads && s.threads[a.t].FlIrps? && s.q.irps != [];
      s'.log.withdrawn == s.log.withdrawn +
        (if cancelling then {s.threads[a.t].target} else if flushing then {s.q.irps[0]} else {})
  {
    hide After, IrpPlaces, PacketPlaces, Without;
    AfterOneMore(run, a);
  }

  ghost predicate Quiescent(s: State) {
    s.q == Queues([], []) && forall t :: t in s.threads ==> IrpOf(s.threads[t]).None? && PacketOf(s.threads[t]).None?
  }

  /** When the queues are empty and no thread holds anything, nothing is left over. */
  lemma NothingLeftOver(run: seq<Action>)
    requires Quiescent(After(run))
    ensures multiset(CompletedIrps(After(run).log.completed)) == multiset(IssuedIrps(run))
    ensures multiset(After(run).log.freed) == multiset(IssuedPackets(run))
    ensures |After(run).log.accepted| == |MatchedIrps(After(run).log.departed)| + |FlushedPackets(After(run).log.departed)|
  {
    var s := After(run);
    RunKeepsInv(run);
    IssuedHaveAPlace(run);
    PacketsConserved(run);
    var completed := CompletedIrps(s.log.completed);
    forall irp
      ensures multiset(completed)[irp] == multiset(IssuedIrps(run))[irp]
    {
      CountNoDuplicates(completed, irp);
      if irp in IssuedIrps(run) {
        IrpInExactlyOnePlace(run, irp);
      }
    }
    forall p
      ensures multiset(s.log.freed)[p] == multiset(IssuedPackets(run))[p]
    {
      CountNoDuplicates(s.log.freed, p);
      if p in IssuedPackets(run) {
        PacketInExactlyOnePlace(run, p);
      }
    }
  }
}
