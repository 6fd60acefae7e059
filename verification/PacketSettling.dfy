/**
 * When a packet and a read request wait for each other in the interleaved system. A thread in
 * its match loop will still bring them together; the module says exactly which steps leave them
 * both waiting with no such thread.
 */
module PacketSettling {
  import opened Collections
  import opened PacketEngine
  import opened PacketTheorems

  /** The thread will go through the match loop of AdapterTransmit once more. */
  predicate InLoop(th: Thread) {
    th.TxMatching? || (th.Delivering? && th.transmit)
  }

  /** No packet waits while a request waits, unless some thread is still in its match loop. */
  ghost predicate Settled(s: State) {
    || s.q.packets == []
    || s.q.irps == []
    || exists t :: t in s.threads && InLoop(s.threads[t])
  }

  /**
   * The step pends a read past waiting packets, or leaves the match loop because the device is
   * down while both wait, and no other thread is in its match loop.
   */
  ghost predicate Breaks(s: State, t: nat, up: bool)
    requires t in s.threads
  {
    && (forall u :: u in s.threads && u != t ==> !InLoop(s.threads[u]))
    && s.q.packets != []
    && (|| (s.threads[t].RdPending? && up && |s.q.irps| < IRP_QUEUE_SIZE)
        || (s.threads[t].TxMatching? && !up && s.q.irps != []))
  }

  /** The match loop is left exactly when the device is down or a queue is empty. */
  lemma MatchLoopExit(s: State, t: nat, up: bool)
    requires t in s.threads && s.threads[t].TxMatching?
    ensures var s' := Step(s, t, up);
      if !up || s.q.packets == [] || s.q.irps == [] then s'.threads[t] == Done && s'.q == s.q
      else InLoop(s'.threads[t])
  {
  }

  /** Only a thread that is in its loop, or has just queued a packet, is in its loop afterwards. */
  lemma LoopsElsewhere(s: State, t: nat, up: bool)
    requires t in s.threads
    ensures var s' := Step(s, t, up);
      && s'.threads.Keys == s.threads.Keys
      && (forall u :: u in s.threads && u != t ==> s'.threads[u] == s.threads[u])
      && (InLoop(s.threads[t]) && !s.threads[t].TxMatching? ==> InLoop(s'.threads[t]))
      && (InLoop(s'.threads[t]) ==> InLoop(s.threads[t]) || s.threads[t].TxPushing?)
  {
    hide IrpPlaces, PacketPlaces, Record;
  }

  /** What a step outside the match loop does to the queues, as far as settling goes. */
  lemma QueuesElsewhere(s: State, t: nat, up: bool)
    requires t in s.threads && !s.threads[t].TxMatching?
    ensures var s' := Step(s, t, up);
      && (s.threads[t].RdPending? && up && |s.q.irps| < IRP_QUEUE_SIZE ==>
            s'.q.packets == s.q.packets && s'.q.irps != [])
      && (!(s.threads[t].RdPending? && up && |s.q.irps| < IRP_QUEUE_SIZE) && s.q.irps == [] ==> s'.q.irps == [])
      && (!InLoop(s'.threads[t]) && s.q.packets == [] ==> s'.q.packets == [])
  {
    hide IrpPlaces, PacketPlaces, Record, Without;
    if s.threads[t].CnExtracting? {
      WithoutMembers(s.q.irps, {s.threads[t].target});
    }
  }

  /** A settled system is unsettled by a step exactly when the step breaks it. */
  lemma SettledStep(s: State, t: nat, up: bool)
    requires t in s.threads && Settled(s)
    ensures Settled(Step(s, t, up)) <==> !Breaks(s, t, up)
  {
    hide Step;
    var s' := Step(s, t, up);
    LoopsElsewhere(s, t, up);
    if s.threads[t].TxMatching? {
      MatchLoopExit(s, t, up);
    } else {
      QueuesElsewhere(s, t, up);
    }
    assert forall u :: u in s.threads && u != t ==> InLoop(s'.threads[u]) == InLoop(s.threads[u]);
  }

  /** A thread that enters the driver leaves a settled system settled. */
  lemma SettledSpawn(s: State, t: nat, th: Thread)
    requires CanSpawn(s, t, th)
    ensures Settled(Spawn(s, t, th)) <==> Settled(s)
  {
    var s' := Spawn(s, t, th);
    assert forall u :: u in s.threads ==> u != t && s'.threads[u] == s.threads[u];
  }

  /** The k-th action of the run is a step that breaks the system. */
  ghost predicate BreaksAt(run: seq<Action>, k: nat)
    requires k < |run|
  {
    run[k].Advance? && run[k].t in After(run[..k]).threads && Breaks(After(run[..k]), run[k].t, run[k].obs)
  }

  /**
   * A system stays settled throughout a run exactly when no step of the run breaks it. So a
   * packet and a request that wait for each other, with no thread left to pair them, go back
   * to a read pended past a packet or to a match loop left while the device was down.
   */
  lemma {:induction false} SettledExactlyWhen(run: seq<Action>)
    ensures (forall k :: 0 <= k <= |run| ==> Settled(After(run[..k]))) <==>
      (forall k :: 0 <= k < |run| ==> !BreaksAt(run, k))
  {
    hide After, Settled, BreaksAt;
    if run == [] {
      AfterNothing();
    } else {
      var last := |run| - 1;
      var front := run[..last];
      SettledExactlyWhen(front);
      SameBefore(run);
      assert run[..|run|] == run;
      if Settled(After(front)) {
        SettledAfter(run);
      }
    }
  }

  lemma SameBefore(run: seq<Action>)
    requires run != []
    ensures var front := run[..|run| - 1];
      && (forall k :: 0 <= k < |run| ==> front[..k] == run[..k])
      && (forall k :: 0 <= k < |run| - 1 ==> BreaksAt(front, k) == BreaksAt(run, k))
  {
    hide After, Breaks;
    var front := run[..|run| - 1];
    assert forall k :: 0 <= k < |run| ==> front[..k] == run[..k];
  }

  lemma SettledAfter(run: seq<Action>)
    requires run != [] && Settled(After(run[..|run| - 1]))
    ensures Settled(After(run)) <==> !BreaksAt(run, |run| - 1)
  {
    hide Breaks, Settled, Step, Spawn, CanSpawn;
    var s, a := After(run[..|run| - 1]), run[|run| - 1];
    if Enabled(s, a) {
      match a
      case Enter(t, th) => SettledSpawn(s, t, th);
      case Advance(t, up) => SettledStep(s, t, up);
    }
  }

  /** Between operations, when no thread is in its match loop, one of the queues is then empty. */
  lemma NeverBothUnlessBroken(run: seq<Action>)
    requires forall k :: 0 <= k < |run| ==> !BreaksAt(run, k)
    requires forall t :: t in After(run).threads ==> !InLoop(After(run).threads[t])
    ensures After(run).q.packets == [] || After(run).q.irps == []
  {
    SettledExactlyWhen(run);
    assert run[..|run|] == run;
    assert Settled(After(run[..|run|]));
  }

  /** A read that found no packet and is about to pend. */
  lemma ReadAboutToPend(irp: Irp) returns (run: seq<Action>)
    ensures After(run).threads == map[0 := RdPending(irp)] && After(run).q == Queues([], [])
    ensures forall a :: a in run && a.Enter? ==> a.th.RdChecking?
  {
    hide After, PacketPlaces, IrpPlaces, Record;
    AfterNothing();
    run := AfterAlso([], Enter(0, RdChecking(irp)));
    run := AfterAlso(run, Advance(0, true));
    run := AfterAlso(run, Advance(0, true));
  }

  /** Then a transmit queues its packet, and finds no read. */
  lemma PacketQueuedMeanwhile(irp: Irp, p: Packet) returns (run: seq<Action>)
    ensures After(run).threads.Keys == {0, 1} && After(run).q == Queues([p], [])
    ensures After(run).threads[0] == RdPending(irp) && After(run).threads[1] == TxMatching
  {
    hide After, PacketPlaces, IrpPlaces, Record;
    run := ReadAboutToPend(irp);
    PacketStillNew(run, p);
    run := AfterAlso(run, Enter(1, TxFiltering(p)));
    assert After(run).threads.Keys == {0, 1} && After(run).threads[1] == TxFiltering(p);
    run := AfterAlso(run, Advance(1, true));
    run := AfterAlso(run, Advance(1, true));
  }

  /**
   * "Never both queues non-empty" is not an invariant of the interleaved system: a read finds
   * no packet, a transmit then queues one and finds no read, and only then the read is pended.
   */
  lemma BothQueuesCanBeNonEmpty(irp: Irp, p: Packet) returns (run: seq<Action>)
    ensures After(run).q == Queues([p], [irp])
    ensures forall t :: t in After(run).threads ==> After(run).threads[t] == Done
  {
    hide After, PacketPlaces, IrpPlaces, Record;
    run := PacketQueuedMeanwhile(irp, p);
    run := AfterAlso(run, Advance(1, true));
    assert After(run).threads.Keys == {0, 1} && After(run).threads[0] == RdPending(irp) && After(run).threads[1] == Done;
    run := AfterAlso(run, Advance(0, true));
  }

  lemma AfterNothing()
    ensures After([]) == BOOT && Settled(BOOT)
  {
  }

  lemma AfterAlso(run: seq<Action>, a: Action) returns (longer: seq<Action>)
    ensures longer == run + [a] && After(longer) == Apply(After(run), a)
  {
    longer := run + [a];
    assert longer[..|longer| - 1] == run;
  }

  lemma PacketStillNew(run: seq<Action>, p: Packet)
    requires forall a :: a in run && a.Enter? ==> a.th.RdChecking?
    ensures p !in After(run).packetPlace
  {
    IssuedHaveAPlace(run);
    NoneIssued(run, p);
  }

  lemma {:induction false} NoneIssued(run: seq<Action>, p: Packet)
    requires forall a :: a in run && a.Enter? ==> a.th.RdChecking?
    ensures p !in IssuedPackets(run)
  {
    if run == [] {
    } else {
      assert run[|run| - 1] in run;
      NoneIssued(run[..|run| - 1], p);
    }
  }
}
