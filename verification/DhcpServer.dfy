/** The DHCP server that the adapter masquerades as: ProcessDHCP, and its answers over a run. */
module DhcpServer {
  import opened Collections
  import opened Bytes
  import opened DhcpOptions
  import opened DhcpMessage

  const BAD_DHCPREQUEST_NAK_THRESHOLD := 3
  const ULONG_SIZE := 0x1_0000_0000

  //
  // The protocol: what is answered, and what is remembered
  //

  /** What the adapter remembers of the messages since its state was reset. */
  datatype Session = Session(discovered: bool, badRequests: uint32)

  const RESET := Session(false, 0)

  /** A message that reaches the state machine, with the address configured at that moment. */
  datatype Event = Event(addr: Ip4, discover: bool, ciaddr: Ip4)

  datatype Answer = Offer | Ack | Nak

  /** The client does not name the address that it is to have. */
  predicate Bad(e: Event) {
    !e.discover && e.ciaddr != e.addr
  }

  function AnswerTo(s: Session, e: Event): Answer {
    if !e.discover
       && ((e.ciaddr != NO_IP && e.ciaddr != e.addr) || !s.discovered
           || s.badRequests as int >= BAD_DHCPREQUEST_NAK_THRESHOLD)
    then Nak
    else if e.discover then Offer else Ack
  }

  /** The counter is 32 bits wide and wraps around. */
  function Remember(s: Session, e: Event): Session {
    Session(s.discovered || e.discover,
            if Bad(e) then ((s.badRequests as int + 1) % ULONG_SIZE) as uint32 else s.badRequests)
  }

  function AnswerCode(a: Answer): byte {
    match a
    case Offer => DHCPOFFER
    case Ack => DHCPACK
    case Nak => DHCPNAK
  }

  //
  // The adapter
  //

  /** What ProcessDHCP does with a message. */
  datatype Outcome = NotOurs | Dropped | Answered(answer: Answer, reply: Option<seq<byte>>)

  /** DHCPMessageOurs */
  predicate MessageOurs(a: Config, eth: EthHeader, ip: IpHeader, udp: UdpHeader, dhcp: DhcpHeader) {
    && eth.proto == ETH_P_IP && ip.protocol == 17
    && eth.src == a.mac
    && (eth.dest == a.broadcast || eth.dest == a.serverMac)
    && udp.dest == BOOTPS_PORT && udp.source == BOOTPC_PORT
    && dhcp.hlen == 6
    && eth.src == dhcp.chaddr
  }

  class Adapter {
    var config: Config
    var receivedDiscover: bool
    var badRequests: uint32

    function Remembered(): Session
      reads this
    {
      Session(receivedDiscover, badRequests)
    }

    constructor (config: Config)
      ensures this.config == config && Remembered() == RESET
    {
      this.config := config;
      receivedDiscover, badRequests := false, 0;
    }

    /**
     * ProcessDHCP of a message with the given headers and option bytes. A whole DHCP message
     * from the adapter's own address is answered when it is a DHCPDISCOVER (1) or a DHCPREQUEST
     * (3): with a DHCPOFFER (2), or with a DHCPNAK (6) or DHCPACK (5).
     */
    method ProcessDHCP(eth: EthHeader, ip: IpHeader, udp: UdpHeader, dhcp: DhcpHeader, opts: seq<byte>, gotMemory: bool)
      returns (outcome: Outcome)
      modifies this`receivedDiscover, this`badRequests
      ensures var whole := ip.totLen as int == 268 + |opts| && ip.fragOff % 0x2000 == 0;
        var ours := eth.proto == 0x0800 && ip.protocol == 17 && udp.source == 68 && udp.dest == 67
                    && dhcp.hlen == 6 && dhcp.chaddr == eth.src == config.mac
                    && eth.dest in {config.broadcast, config.serverMac};
        && (outcome.NotOurs? <==> whole && !ours)
        && (outcome.Answered? <==> whole && ours && dhcp.op == 1 && MessageType(Decode(opts)) in {1, 3})
      // what is answered
      ensures outcome.Answered? ==>
        var discover := MessageType(Decode(opts)) == 1;
        var refused := (dhcp.ciaddr != [0, 0, 0, 0] && dhcp.ciaddr != config.addr)
                       || !old(receivedDiscover) || old(badRequests) >= 3;
        var code: byte := if discover then 2 else if refused then 6 else 5;
        && outcome.answer == (if discover then Offer else if refused then Nak else Ack)
        && IsReply(outcome.reply, config, code, eth, dhcp, gotMemory)
        && (outcome.reply.Some? ==>
              |outcome.reply.value| >= 282 && MessageType(Decode(outcome.reply.value[282..])) == code as int)
      // what is remembered
      ensures !outcome.Answered? ==> Remembered() == old(Remembered())
      ensures outcome.Answered? ==>
        var discover := MessageType(Decode(opts)) == 1;
        var bad := !discover && dhcp.ciaddr != config.addr;
        && receivedDiscover == (old(receivedDiscover) || discover)
        && badRequests as int == (old(badRequests) as int + if bad then 1 else 0) % 0x1_0000_0000
      // so one more message of a run
      ensures outcome.Answered? ==>
        var e := Event(config.addr, MessageType(Decode(opts)) == 1, dhcp.ciaddr);
        outcome.answer == AnswerTo(old(Remembered()), e) && Remembered() == Remember(old(Remembered()), e)
    {
      if !(ip.totLen as int == 20 + 8 + 240 + |opts| && ip.fragOff % 0x2000 == 0) {
        return Dropped;
      }
      if !MessageOurs(config, eth, ip, udp, dhcp) {
        return NotOurs;
      }
      hide MessageOurs, Decode, MessageType, IsReply;
      var msgType := GetDHCPMessageType(opts);
      if dhcp.op != BOOTREQUEST {
        return Dropped;
      }
      if !(msgType == DHCPDISCOVER as int || msgType == DHCPREQUEST as int) {
        return Dropped;
      }
      var answer, reply := Reply(msgType as byte, eth, dhcp, gotMemory);
      ReplyCarries(reply, config, AnswerCode(answer), eth, dhcp, gotMemory);
      return Answered(answer, reply);
    }

    lemma ReplyCarries(pkt: Option<seq<byte>>, a: Config, msgType: byte, req: EthHeader, reqDhcp: DhcpHeader,
                       gotMemory: bool)
      requires IsReply(pkt, a, msgType, req, reqDhcp, gotMemory)
      ensures pkt.Some? ==> |pkt.value| >= 282 && MessageType(Decode(pkt.value[282..])) == msgType as int
    {
    }

    /** The end of ProcessDHCP, for a DHCPDISCOVER or DHCPREQUEST. */
    method Reply(msgType: byte, eth: EthHeader, dhcp: DhcpHeader, gotMemory: bool)
      returns (answer: Answer, reply: Option<seq<byte>>)
      requires msgType == DHCPDISCOVER || msgType == DHCPREQUEST
      modifies this`receivedDiscover, this`badRequests
      ensures answer ==
        if msgType == 1 then Offer
        else if (dhcp.ciaddr != [0, 0, 0, 0] && dhcp.ciaddr != config.addr)
                || !old(receivedDiscover) || old(badRequests) >= 3 then Nak
        else Ack
      ensures var e := Event(config.addr, msgType == DHCPDISCOVER, dhcp.ciaddr);
        answer == AnswerTo(old(Remembered()), e) && Remembered() == Remember(old(Remembered()), e)
      ensures IsReply(reply, config, AnswerCode(answer), eth, dhcp, gotMemory)
    {
      hide IsReply;
      if msgType == DHCPREQUEST
         && ((dhcp.ciaddr != NO_IP && dhcp.ciaddr != config.addr)
             || !receivedDiscover
             || badRequests as int >= BAD_DHCPREQUEST_NAK_THRESHOLD) {
        reply := SendDHCPMsg(config, DHCPNAK, eth, dhcp, gotMemory);
        answer := Nak;
      } else {
        reply := SendDHCPMsg(config, if msgType == DHCPDISCOVER then DHCPOFFER else DHCPACK, eth, dhcp, gotMemory);
        answer := if msgType == DHCPDISCOVER then Offer else Ack;
      }
      if msgType == DHCPDISCOVER {
        receivedDiscover := true;
      }
      if msgType == DHCPREQUEST && dhcp.ciaddr != config.addr {
        badRequests := ((badRequests as int + 1) % ULONG_SIZE) as uint32;
      }
    }
  }

  //
  // Runs since a reset; the configured address may change between messages
  //

  function SessionAfter(run: seq<Event>): Session {
    if run == [] then RESET else Remember(SessionAfter(run[..|run| - 1]), run[|run| - 1])
  }

  /** The answer to the k-th message of a run. */
  function AnswerAt(run: seq<Event>, k: nat): Answer
    requires k < |run|
  {
    AnswerTo(SessionAfter(run[..k]), run[k])
  }

  function BadCount(run: seq<Event>): nat {
    if run == [] then 0 else BadCount(run[..|run| - 1]) + if Bad(run[|run| - 1]) then 1 else 0
  }

  /** How many bad requests of the run were answered with an ACK all the same. */
  function BadAcks(run: seq<Event>): nat {
    if run == [] then 0
    else
      var k := |run| - 1;
      BadAcks(run[..k]) + if Bad(run[k]) && AnswerAt(run, k) == Ack then 1 else 0
  }

  /** What is remembered after a run, in terms of the run alone. */
  lemma {:induction false} CounterIsHistory(run: seq<Event>)
    ensures SessionAfter(run).badRequests as int == BadCount(run) % ULONG_SIZE
  {
    if run == [] {
    } else {
      CounterIsHistory(run[..|run| - 1]);
    }
  }

  lemma {:induction false} DiscoveryIsHistory(run: seq<Event>)
    ensures SessionAfter(run).discovered <==> exists j :: 0 <= j < |run| && run[j].discover
  {
    if run == [] {
    } else {
      var front, last := run[..|run| - 1], |run| - 1;
      DiscoveryIsHistory(front);
      if exists j :: 0 <= j < |front| && front[j].discover {
        var j :| 0 <= j < |front| && front[j].discover;
        assert run[j].discover;
      }
      if exists j :: 0 <= j < |run| && run[j].discover {
        var j :| 0 <= j < |run| && run[j].discover;
        assert j < last ==> front[j].discover;
      }
    }
  }

  /** A discover is always offered an address, and nothing else is. */
  lemma OfferExactlyWhen(run: seq<Event>, k: nat)
    requires k < |run|
    ensures AnswerAt(run, k) == Offer <==> run[k].discover
  {
  }

  /** Exactly when a request is refused: for the address it names, or for what came before. */
  lemma RefusedExactlyWhen(run: seq<Event>, k: nat)
    requires k < |run| && !run[k].discover
    ensures AnswerAt(run, k) != Offer
    ensures AnswerAt(run, k) == Nak <==>
      || (run[k].ciaddr != NO_IP && run[k].ciaddr != run[k].addr)
      || (forall j :: 0 <= j < k ==> !run[j].discover)
      || BadCount(run[..k]) % 0x1_0000_0000 >= 3
  {
    CounterIsHistory(run[..k]);
    DiscoveryIsHistory(run[..k]);
    if AnswerAt(run, k) == Ack {
      var j :| 0 <= j < |run[..k]| && run[..k][j].discover;
      assert run[j].discover;
    }
    if exists j :: 0 <= j < k && run[j].discover {
      var j :| 0 <= j < k && run[j].discover;
      assert run[..k][j].discover;
    }
  }

  /** No request is acknowledged before a discover has been handled. */
  lemma AckNeedsDiscover(run: seq<Event>, k: nat)
    requires k < |run| && AnswerAt(run, k) == Ack
    ensures exists j :: 0 <= j < k && run[j].discover
  {
    RefusedExactlyWhen(run, k);
  }

  /** After three bad requests, or three more than the counter wraps around at, every request is refused. */
  lemma AfterThreeBadRequests(run: seq<Event>, k: nat)
    requires k < |run| && !run[k].discover
    requires BadCount(run[..k]) % ULONG_SIZE >= 3
    ensures AnswerAt(run, k) == Nak
  {
    RefusedExactlyWhen(run, k);
  }

  /** Three for every time the counter can wrap around, and up to three after the last time. */
  function AckBound(bad: nat): nat {
    3 * (bad / ULONG_SIZE) + Min(3, bad % ULONG_SIZE)
  }

  lemma AckBoundNext(bad: nat)
    ensures AckBound(bad + 1) == AckBound(bad) + if bad % ULONG_SIZE < 3 then 1 else 0
  {
    var q, r := bad / ULONG_SIZE, bad % ULONG_SIZE;
    assert bad + 1 == ULONG_SIZE * q + (r + 1);
    if r + 1 < ULONG_SIZE {
      assert (bad + 1) / ULONG_SIZE == q && (bad + 1) % ULONG_SIZE == r + 1;
    } else {
      assert bad + 1 == ULONG_SIZE * (q + 1);
      assert (bad + 1) / ULONG_SIZE == q + 1 && (bad + 1) % ULONG_SIZE == 0;
    }
  }

  /** How many bad requests are acknowledged at most, over every run. */
  lemma {:induction false} BadAcksBound(run: seq<Event>)
    ensures BadAcks(run) <= AckBound(BadCount(run))
  {
    hide AckBound;
    if run == [] {
      NoBadAcks();
    } else {
      var k := |run| - 1;
      BadAcksBound(run[..k]);
      if Bad(run[k]) {
        RefusedExactlyWhen(run, k);
        AckBoundNext(BadCount(run[..k]));
      }
    }
  }

  lemma NoBadAcks()
    ensures BadAcks([]) == AckBound(BadCount([])) == AckBound(0) == 0
  {
  }

  /** `n` requests from a client that names no address, after one discover. */
  ghost function Pestering(addr: Ip4, n: nat): seq<Event> {
    [Event(addr, true, NO_IP)] + seq(n, _ => Event(addr, false, NO_IP))
  }

  /** One more of these requests. */
  lemma PesteringNext(addr: Ip4, n: nat)
    requires addr != NO_IP
    ensures var run := Pestering(addr, n); var longer := Pestering(addr, n + 1);
      && BadCount(longer) == BadCount(run) + 1
      && BadAcks(longer) == BadAcks(run) + if BadCount(run) % ULONG_SIZE < 3 then 1 else 0
  {
    var run, longer := Pestering(addr, n), Pestering(addr, n + 1);
    assert longer[..n + 1] == run;
    assert longer[n + 1] == Event(addr, false, NO_IP);
    assert longer[0].discover;
    RefusedExactlyWhen(longer, n + 1);
  }

  lemma PesteringNone(addr: Ip4)
    ensures BadCount(Pestering(addr, 0)) == 0 && BadAcks(Pestering(addr, 0)) == 0
  {
    var run := Pestering(addr, 0);
    assert run == [Event(addr, true, NO_IP)] && run[..0] == [];
  }

  /** The bound is attained, for every number of bad requests. */
  lemma {:induction false} PesteringAttainsBound(addr: Ip4, n: nat)
    requires addr != NO_IP
    ensures BadCount(Pestering(addr, n)) == n
    ensures BadAcks(Pestering(addr, n)) == AckBound(n)
  {
    hide Pestering, BadCount, BadAcks, AckBound;
    if n == 0 {
      PesteringNone(addr);
      NoBadAcks();
    } else {
      PesteringAttainsBound(addr, n - 1);
      PesteringNext(addr, n - 1);
      AckBoundNext(n - 1);
    }
  }

  /**
   * "At most three bad requests are ever acknowledged" holds of all runs with a given number
   * of bad requests exactly when the counter does not wrap around before the last of them.
   */
  lemma AtMostThreeExactlyWhen(bad: nat)
    ensures (forall run :: BadCount(run) == bad ==> BadAcks(run) <= 3) <==> bad <= ULONG_SIZE
  {
    AckBoundThree(bad);
    if bad <= ULONG_SIZE {
      forall run | BadCount(run) == bad
        ensures BadAcks(run) <= 3
      {
        BadAcksBound(run);
      }
    } else {
      PesteringAttainsBound(BROADCAST_IP, bad);
      assert BadCount(Pestering(BROADCAST_IP, bad)) == bad;
    }
  }

  lemma AckBoundThree(bad: nat)
    ensures AckBound(bad) <= 3 <==> bad <= ULONG_SIZE
  {
    var q, r := bad / ULONG_SIZE, bad % ULONG_SIZE;
    assert bad == ULONG_SIZE * q + r;
    if q == 0 {
    } else if q == 1 {
    } else {
      assert AckBound(bad) >= 6;
    }
  }

  /** So the request after 2^32 bad ones is acknowledged again. */
  lemma FourthBadAck(addr: Ip4)
    requires addr != NO_IP
    ensures BadCount(Pestering(addr, ULONG_SIZE + 1)) == ULONG_SIZE + 1
    ensures BadAcks(Pestering(addr, ULONG_SIZE + 1)) == 4
  {
    hide Pestering, BadCount, BadAcks;
    PesteringAttainsBound(addr, ULONG_SIZE + 1);
  }
}
