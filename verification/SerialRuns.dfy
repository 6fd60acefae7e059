/**
 * A thread of the interleaved system that runs alone, from one step to the next without any
 * other thread in between, does what the entry points of the TAP extension promise: the two
 * models of tapdrvr.c agree.
 */
module SerialRuns {
  import opened Collections
  import opened PacketEngine
  import opened TapExtension

  /** Thread `t` takes `n` steps, the device up or down all the while. */
  ghost function Alone(s: State, t: nat, up: bool, n: nat): (r: State)
    requires t in s.threads
    ensures t in r.threads
    decreases n
  {
    if n == 0 then s else Alone(Step(s, t, up), t, up, n - 1)
  }

  lemma AloneStep(s: State, t: nat, up: bool, n: nat)
    requires t in s.threads
    ensures Alone(s, t, up, 0) == s
    ensures t in Step(s, t, up).threads && Alone(s, t, up, n + 1) == Alone(Step(s, t, up), t, up, n)
  {
  }

  /** The thread has finished with these queues, these new completions, and these packets freed. */
  ghost predicate Ends(s: State, s': State, t: nat, q: Queues, completions: seq<Completion>, freed: seq<Packet>)
    requires t in s'.threads
  {
    && s'.threads[t] == Done && s'.q == q
    && s'.log.completed == s.log.completed + completions
    && s'.log.freed == s.log.freed + freed
  }

  lemma DeliveriesFirst(irps: seq<Irp>, packets: seq<Packet>, n: nat)
    requires 0 < n <= |irps| && n <= |packets|
    ensures Deliveries(irps[..n], packets[..n]) ==
      [Delivery(irps[0], packets[0])] + Deliveries(irps[1..][..n - 1], packets[1..][..n - 1])
    ensures packets[..n] == [packets[0]] + packets[1..][..n - 1]
  {
  }

  /** One turn of the match loop: take a pair, and deliver it. */
  lemma OnePair(s: State, t: nat) returns (s': State)
    requires t in s.threads && s.threads[t] == TxMatching && s.q.packets != [] && s.q.irps != []
    ensures s' == Step(Step(s, t, true), t, true) && t in s'.threads && s'.threads[t] == TxMatching
    ensures s'.q == Queues(s.q.packets[1..], s.q.irps[1..])
    ensures s'.log.completed == s.log.completed + [Delivery(s.q.irps[0], s.q.packets[0])]
    ensures s'.log.freed == s.log.freed + [s.q.packets[0]]
  {
    hide IrpPlaces, PacketPlaces, Delivery;
    s' := Step(Step(s, t, true), t, true);
  }

  /** The match loop of a transmit, as in Extension.MatchLoop. */
  lemma {:induction false} MatchAlone(s: State, t: nat, up: bool) returns (n: nat)
    requires t in s.threads && s.threads[t] == TxMatching
    ensures var m := PairCount(s.q, up);
      Ends(s, Alone(s, t, up, n), t, Queues(s.q.packets[m..], s.q.irps[m..]),
           Deliveries(s.q.irps[..m], s.q.packets[..m]), s.q.packets[..m])
    decreases |s.q.irps|
  {
    hide Deliveries, Delivery, Step, Alone, PairCount;
    var m := PairCount(s.q, up);
    AloneStep(s, t, up, 0);
    AloneStep(Step(s, t, up), t, up, 0);
    if m == 0 {
      n := 1;
      NothingDelivered();
      NoPair(s, t, up);
    } else {
      var s2 := OnePair(s, t);
      n := MatchAlone(s2, t, up);
      AloneStep(s, t, up, n + 1);
      AloneStep(Step(s, t, up), t, up, n);
      n := n + 2;
      OnePairMore(s, s2, Alone(s, t, up, n), t, m);
    }
  }

  /** A pair, and then what comes of the rest. */
  lemma OnePairMore(s: State, s2: State, s': State, t: nat, m: nat)
    requires t in s'.threads && 0 < m <= |s.q.packets| && m <= |s.q.irps|
    requires s2.q == Queues(s.q.packets[1..], s.q.irps[1..])
    requires s2.log.completed == s.log.completed + [Delivery(s.q.irps[0], s.q.packets[0])]
    requires s2.log.freed == s.log.freed + [s.q.packets[0]]
    requires Ends(s2, s', t, Queues(s2.q.packets[m - 1..], s2.q.irps[m - 1..]),
                  Deliveries(s2.q.irps[..m - 1], s2.q.packets[..m - 1]), s2.q.packets[..m - 1])
    ensures Ends(s, s', t, Queues(s.q.packets[m..], s.q.irps[m..]),
                 Deliveries(s.q.irps[..m], s.q.packets[..m]), s.q.packets[..m])
  {
    hide Deliveries, Delivery;
    DeliveriesFirst(s.q.irps, s.q.packets, m);
    assert s2.q.packets[m - 1..] == s.q.packets[m..] && s2.q.irps[m - 1..] == s.q.irps[m..];
  }

  lemma NoPair(s: State, t: nat, up: bool)
    requires t in s.threads && s.threads[t] == TxMatching && PairCount(s.q, up) == 0
    ensures Ends(s, Step(s, t, up), t, s.q, [], [])
  {
  }

  /**
   * A transmit, as in Extension.Transmit, from its start or from its first critical section on:
   * its packet is queued exactly when the device is up and fewer than 64 packets wait, and then
   * as many packets and requests are paired as there are of both.
   */
  lemma TransmitAlone(s: State, t: nat, up: bool, p: Packet) returns (n: nat)
    requires t in s.threads && (s.threads[t] == TxFiltering(p) || s.threads[t] == TxPushing(p))
    ensures var s' := Alone(s, t, up, n);
      if up && |s.q.packets| < 64 then
        var packets := s.q.packets + [p];
        var m := Min(|packets|, |s.q.irps|);
        Ends(s, s', t, Queues(packets[m..], s.q.irps[m..]), Deliveries(s.q.irps[..m], packets[..m]), packets[..m])
      else Ends(s, s', t, s.q, [], [p])
    decreases s.threads[t].TxFiltering?
  {
    hide IrpPlaces, PacketPlaces, Deliveries, Delivery, Alone;
    var s1 := Step(s, t, up);
    if s1.threads[t] == TxPushing(p) {
      n := TransmitAlone(s1, t, up, p);
      AloneStep(s, t, up, n);
      n := n + 1;
    } else if s1.threads[t] == TxMatching {
      n := MatchAlone(s1, t, up);
      AloneStep(s, t, up, n);
      n := n + 1;
    } else {
      n := 2;
      AloneStep(s, t, up, 1);
      AloneStep(s1, t, up, 0);
      AloneStep(Step(s1, t, up), t, up, 0);
    }
  }

  /**
   * A read, as in Extension.Read, from its start or from its first critical section on. At the
   * start `up` also says that its buffer is mapped.
   */
  lemma ReadAlone(s: State, t: nat, up: bool, irp: Irp) returns (n: nat)
    requires t in s.threads && (s.threads[t] == RdChecking(irp) || s.threads[t] == RdServing(irp))
    ensures var q := s.q; var s' := Alone(s, t, up, n);
      if up && q.packets != [] && q.irps == [] then
        Ends(s, s', t, q.(packets := q.packets[1..]), [Delivery(irp, q.packets[0])], [q.packets[0]])
      else if up && |q.irps| < 16 then Ends(s, s', t, q.(irps := q.irps + [irp]), [], [])
      else Ends(s, s', t, q, [Completion(irp, Unsuccessful, 0, [])], [])
    decreases s.threads[t].RdChecking?
  {
    hide IrpPlaces, PacketPlaces, Delivery, Alone;
    var s1 := Step(s, t, up);
    var s2 := Step(s1, t, up);
    AloneStep(s, t, up, 1);
    AloneStep(s1, t, up, 0);
    AloneStep(s2, t, up, 0);
    if s1.threads[t] == RdServing(irp) {
      n := ReadAlone(s1, t, up, irp);
      AloneStep(s, t, up, n);
      n := n + 1;
    } else {
      n := 2;
      if s2.threads[t] == RdFailing(irp) {
        n := 3;
        AloneStep(s, t, up, 2);
        AloneStep(s1, t, up, 1);
        AloneStep(Step(s2, t, up), t, up, 0);
      }
    }
  }

  /** A cancel callback, as in Extension.Cancel. */
  lemma CancelAlone(s: State, t: nat, up: bool, irp: Irp) returns (n: nat)
    requires t in s.threads && s.threads[t] == CnExtracting(irp)
    ensures Ends(s, Alone(s, t, up, n), t, s.q.(irps := Without(s.q.irps, {irp})),
                 if irp in s.q.irps then [Completion(irp, Cancelled, 0, [])] else [], [])
  {
    hide IrpPlaces, PacketPlaces;
    hide Alone, Without;
    var s1 := Step(s, t, up);
    n := if irp in s.q.irps then 2 else 1;
    AloneStep(s, t, up, n - 1);
    AloneStep(s1, t, up, 0);
    if irp in s.q.irps {
      AloneStep(Step(s1, t, up), t, up, 0);
    }
  }

  /** A flush, as in Extension.Flush: first the requests... */
  lemma {:induction false} FlushAlone(s: State, t: nat, up: bool) returns (n: nat)
    requires t in s.threads && s.threads[t] == FlIrps
    ensures Ends(s, Alone(s, t, up, n), t, Queues([], []), Cancellations(s.q.irps), s.q.packets)
    decreases |s.q.irps|
  {
    hide IrpPlaces, PacketPlaces, Alone, Cancellations;
    var s1 := Step(s, t, up);
    if s.q.irps == [] {
      NothingCancelled();
      n := FlushPacketsAlone(s1, t, up);
      AloneStep(s, t, up, n);
      n := n + 1;
    } else {
      var s2 := OneCancelled(s, t, up);
      CancellationsFirst(s.q.irps);
      n := FlushAlone(s2, t, up);
      AloneStep(s, t, up, n + 1);
      AloneStep(s1, t, up, n);
      n := n + 2;
    }
  }

  lemma OneCancelled(s: State, t: nat, up: bool) returns (s': State)
    requires t in s.threads && s.threads[t] == FlIrps && s.q.irps != []
    ensures s' == Step(Step(s, t, up), t, up) && t in s'.threads && s'.threads[t] == FlIrps
    ensures s'.q == s.q.(irps := s.q.irps[1..])
    ensures s'.log.completed == s.log.completed + [Completion(s.q.irps[0], Cancelled, 0, [])]
    ensures s'.log.freed == s.log.freed
  {
    hide IrpPlaces, PacketPlaces;
    s' := Step(Step(s, t, up), t, up);
  }

  lemma CancellationsFirst(irps: seq<Irp>)
    requires irps != []
    ensures Cancellations(irps) == [Completion(irps[0], Cancelled, 0, [])] + Cancellations(irps[1..])
  {
  }

  /** ...then the packets. */
  lemma {:induction false} FlushPacketsAlone(s: State, t: nat, up: bool) returns (n: nat)
    requires t in s.threads && s.threads[t] == FlPackets
    ensures Ends(s, Alone(s, t, up, n), t, s.q.(packets := []), [], s.q.packets)
    decreases |s.q.packets|
  {
    hide IrpPlaces, PacketPlaces, Alone;
    var s1 := Step(s, t, up);
    if s.q.packets == [] {
      n := 1;
      AloneStep(s, t, up, 0);
      AloneStep(s1, t, up, 0);
    } else {
      var s2 := Step(s1, t, up);
      n := FlushPacketsAlone(s2, t, up);
      AloneStep(s, t, up, n + 1);
      AloneStep(s1, t, up, n);
      n := n + 2;
    }
  }
}
