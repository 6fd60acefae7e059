/**
 * The TAP-Win32 driver's own answer to IPv6 neighbour solicitations (tapdrvr.c): a solicitation
 * of fe80::8 is answered with an advertisement of the peer's hardware address.
 */
module NeighborDiscovery {
  import opened Bytes
  import opened Checksum
  import opened Collections

  const ETH_P_IPV6: uint16 := 0x86dd
  const ICMPV6_TYPE_NS: byte := 135
  const ICMPV6_TYPE_NA: byte := 136
  const ETH_HEADER_SIZE := 14
  const IPV6_HEADER_SIZE := 40
  const NS_SIZE := 24
  const NA_SIZE := 32

  /** ff02::1:ff00:8 */
  const TARGET_MCAST: seq<byte> := [0xff, 2, 0, 0, 0, 0, 0, 0, 0, 0, 0, 1, 0xff, 0, 0, 8]

  /** fe80::8 */
  const TARGET_UNICAST: seq<byte> := [0xfe, 0x80, 0, 0, 0, 0, 0, 0, 0, 0, 0, 0, 0, 0, 0, 8]

  /** A packet and the memory behind it, as far as a solicitation would reach. */
  type Memory = m: seq<byte> | |m| >= ETH_HEADER_SIZE + IPV6_HEADER_SIZE + NS_SIZE witness Zeros(78)

  /** The parts of an IPv6 packet on Ethernet. */
  function NextHeader(p: seq<byte>): byte
    requires |p| >= 54
  {
    p[20]
  }

  function PayloadLength(p: seq<byte>): uint16
    requires |p| >= 54
  {
    Word(p[18], p[19])
  }

  function SourceAddress(p: seq<byte>): seq<byte>
    requires |p| >= 54
  {
    p[22..38]
  }

  function DestinationAddress(p: seq<byte>): seq<byte>
    requires |p| >= 54
  {
    p[38..54]
  }

  function Icmpv6(p: seq<byte>): seq<byte>
    requires |p| >= 54
  {
    p[54..]
  }

  /** Section 4.3 of RFC 4861, for the one target that the driver answers for. */
  predicate IsSolicitation(p: Memory) {
    && ForDriver(p)
    && Icmpv6(p)[0] == ICMPV6_TYPE_NS && Icmpv6(p)[1] == 0
    && Icmpv6(p)[8..24] == TARGET_UNICAST
  }

  /**
   * The answer to a solicitation: back to where it came from, of the length that its header
   * says, solicited and overriding, with the peer's hardware address, and with a checksum that
   * verifies (section 4.4 of RFC 4861, section 2.3 of RFC 4443).
   */
  ghost predicate IsAnswer(reply: seq<byte>, p: Memory, mac: seq<byte>, peer: seq<byte>) {
    && |reply| == ETH_HEADER_SIZE + IPV6_HEADER_SIZE + NA_SIZE
    && reply[..6] == mac && reply[6..12] == peer && Word(reply[12], reply[13]) == ETH_P_IPV6
    && reply[14..18] == p[14..18]
    && PayloadLength(reply) as nat == |Icmpv6(reply)|
    && NextHeader(reply) as uint16 == IPPROTO_ICMPV6 && reply[21] == 255
    && SourceAddress(reply) == TARGET_UNICAST && DestinationAddress(reply) == SourceAddress(p)
    && Icmpv6(reply)[..2] == [ICMPV6_TYPE_NA, 0] && Icmpv6(reply)[4..8] == [0x60, 0, 0, 0]
    && Icmpv6(reply)[8..24] == TARGET_UNICAST && Icmpv6(reply)[24..] == [2, 1] + peer
    && Verifies(Icmpv6PseudoHeader(SourceAddress(reply), DestinationAddress(reply), PayloadLength(reply))
                + Icmpv6(reply))
  }

  /** The checksum stored in a segment makes pseudo-header and segment together verify. */
  lemma SegmentVerifies(pseudo: seq<byte>, seg: seq<byte>, at: nat)
    requires |pseudo| % 2 == 0 && at % 2 == 0 && at + 2 <= |seg| && seg[at] == seg[at + 1] == 0
    ensures Verifies(pseudo + Stored(seg, at, InternetChecksum(pseudo + seg)))
  {
    hide Verifies, InternetChecksum;
    var c := InternetChecksum(pseudo + seg);
    StoredChecksumVerifies(pseudo + seg, |pseudo| + at);
    assert Stored(pseudo + seg, |pseudo| + at, c) == pseudo + Stored(seg, at, c);
  }

  /** The reply packet. */
  method Advertisement(data: Memory, mac: seq<byte>, peer: seq<byte>) returns (na: seq<byte>)
    requires |mac| == 6 && |peer| == 6
    ensures IsAnswer(na, data, mac, peer)
  {
    hide Verifies, InternetChecksum, Icmpv6PseudoHeader, Be16, Stored;
    var eth := mac + peer + Be16(ETH_P_IPV6);
    var saddr, daddr := TARGET_UNICAST, data[22..38];
    var icmpv6Len: uint16 := NA_SIZE as uint16;
    var ipv6 := data[14..18] + Be16(icmpv6Len) + [IPPROTO_ICMPV6 as byte, 255] + saddr + daddr;
    var icmpv6 := [ICMPV6_TYPE_NA, 0, 0, 0, 0x60, 0, 0, 0] + TARGET_UNICAST + [2, 1] + peer;
    var checksum := Icmpv6Checksum(icmpv6, saddr, daddr);
    ghost var pseudo := Icmpv6PseudoHeader(saddr, daddr, icmpv6Len);
    PseudoHeaderEven(saddr, daddr, icmpv6Len);
    SegmentVerifies(pseudo, icmpv6, 2);
    ghost var zeroed := icmpv6;
    icmpv6 := Stored(icmpv6, 2, checksum);
    StoredAround(zeroed, 2, checksum);
    na := eth + ipv6 + icmpv6;
    Layout(eth, ipv6, icmpv6);
    assert icmpv6[..2] == zeroed[..2] && icmpv6[4..8] == zeroed[4..8] && icmpv6[8..24] == zeroed[8..24];
    assert icmpv6[24..] == zeroed[24..];
    assert eth[..6] == mac && eth[6..12] == peer && ipv6[..4] == data[14..18];
    assert ipv6[8..24] == saddr && ipv6[24..] == daddr;
    WordOfBe16(ETH_P_IPV6);
    WordOfBe16(icmpv6Len);
  }

  /** How many bytes are looked at before the packet is taken for a solicitation or not. */
  function Reach(p: Memory): nat {
    if !ForDriver(p) then 54
    else if Icmpv6(p)[0] != ICMPV6_TYPE_NS then 55
    else if Icmpv6(p)[1] != 0 then 56
    else 78
  }

  /** An ICMPv6 packet for one of the two target addresses. */
  predicate ForDriver(p: seq<byte>)
    requires |p| >= 54
  {
    DestinationAddress(p) in {TARGET_MCAST, TARGET_UNICAST} && NextHeader(p) as uint16 == IPPROTO_ICMPV6
  }

  /**
   * The caller has checked for 54 bytes only. Nothing behind the packet is looked at exactly
   * when the packet has the size of a solicitation, or one of the checks on what it has fails;
   * the packet alone then decides.
   */
  lemma StaysInsideExactlyWhen(packet: seq<byte>, beyond: seq<byte>)
    requires |packet| >= 54 && |packet + beyond| >= 78
    ensures Reach(packet + beyond) <= |packet| <==>
      || |packet| >= 78
      || !ForDriver(packet)
      || (|packet| >= 55 && packet[54] != ICMPV6_TYPE_NS)
      || (|packet| >= 56 && packet[55] != 0)
    ensures Reach(packet + beyond) <= |packet| ==>
      (IsSolicitation(packet + beyond) <==> |packet| >= 78 && IsSolicitation(packet))
  {
    var all := packet + beyond;
    assert all[38..54] == packet[38..54] && all[20] == packet[20];
    assert Icmpv6(all)[0] == all[54] && Icmpv6(all)[1] == all[55];
    if |packet| >= 78 {
      assert Icmpv6(all)[8..24] == Icmpv6(packet)[8..24];
    }
  }

  /** The bytes of an answer. */
  lemma AnswerOnTheWire(r: seq<byte>, p: Memory, mac: seq<byte>, peer: seq<byte>)
    requires |mac| == 6 && |peer| == 6 && IsAnswer(r, p, mac, peer)
    ensures var target: seq<byte> := [0xfe, 0x80, 0, 0, 0, 0, 0, 0, 0, 0, 0, 0, 0, 0, 0, 8];
      && |r| == 86 && r[..14] == mac + peer + [0x86, 0xdd]
      && r[14..18] == p[14..18] && r[18..22] == [0, 32, 58, 255] && r[22..38] == target && r[38..54] == p[22..38]
      && r[54..56] == [136, 0] && r[58..62] == [0x60, 0, 0, 0] && r[62..78] == target && r[78..] == [2, 1] + peer
      && Verifies(r[22..54] + [0, 0] + r[18..20] + [0, 0, 0, r[20]] + r[54..])
  {
    hide Verifies;
    assert r[..14] == r[..6] + r[6..12] + [r[12], r[13]];
    assert r[18..20] == Be16(PayloadLength(r));
    assert Icmpv6(r)[..2] == r[54..56] && Icmpv6(r)[4..8] == r[58..62];
    assert Icmpv6(r)[8..24] == r[62..78] && Icmpv6(r)[24..] == r[78..];
    assert Icmpv6PseudoHeader(SourceAddress(r), DestinationAddress(r), PayloadLength(r))
        == r[22..54] + [0, 0] + r[18..20] + [0, 0, 0, r[20]];
  }

  /**
   * HandleIPv6NeighborDiscovery of a packet with `beyond` behind it in memory, up to the
   * injection; `reach` counts the bytes looked at. A solicitation comes to ff02::1:ff00:8 or to
   * fe80::8 and asks for fe80::8. The answer goes back to its sender.
   */
  method HandleIPv6NeighborDiscovery(packet: seq<byte>, beyond: seq<byte>, mac: seq<byte>, peer: seq<byte>, memory: bool)
      returns (injected: Option<seq<byte>>, reach: nat)
    requires |packet| >= 54 && |packet + beyond| >= 78
    requires |mac| == 6 && |peer| == 6
    ensures var data := packet + beyond;
      var mcast: seq<byte> := [0xff, 2, 0, 0, 0, 0, 0, 0, 0, 0, 0, 1, 0xff, 0, 0, 8];
      var target: seq<byte> := [0xfe, 0x80, 0, 0, 0, 0, 0, 0, 0, 0, 0, 0, 0, 0, 0, 8];
      injected.Some? <==>
        && memory && (data[38..54] == mcast || data[38..54] == target) && data[20] == 58
        && data[54] == 135 && data[55] == 0 && data[62..78] == target
    ensures injected.Some? ==>
      var data, r := packet + beyond, injected.value;
      var target: seq<byte> := [0xfe, 0x80, 0, 0, 0, 0, 0, 0, 0, 0, 0, 0, 0, 0, 0, 8];
      && |r| == 86 && r[..14] == mac + peer + [0x86, 0xdd]
      && r[14..18] == data[14..18] && r[18..22] == [0, 32, 58, 255] && r[22..38] == target && r[38..54] == data[22..38]
      && r[54..56] == [136, 0] && r[58..62] == [0x60, 0, 0, 0] && r[62..78] == target && r[78..] == [2, 1] + peer
      && Verifies(r[22..54] + [0, 0] + r[18..20] + [0, 0, 0, r[20]] + r[54..])
      && IsSolicitation(data) && IsAnswer(r, data, mac, peer)
    ensures reach == Reach(packet + beyond)
  {
    hide IsAnswer, Verifies;
    var data := packet + beyond;
    reach := 54;
    if data[38..54] != TARGET_MCAST && data[38..54] != TARGET_UNICAST {
      return None, reach;
    }
    if data[20] as uint16 != IPPROTO_ICMPV6 {
      return None, reach;
    }
    reach := 55;
    if data[54] != ICMPV6_TYPE_NS {
      return None, reach;
    }
    reach := 56;
    if data[55] != 0 {
      return None, reach;
    }
    reach := 78;
    assert Icmpv6(data)[8..24] == data[62..78];
    if data[62..78] != TARGET_UNICAST {
      return None, reach;
    }
    if !memory {
      return None, reach;
    }
    var na := Advertisement(data, mac, peer);
    AnswerOnTheWire(na, data, mac, peer);
    return Some(na), reach;
  }

  lemma PseudoHeaderEven(src: seq<byte>, dst: seq<byte>, len: uint16)
    requires |src| == |dst| == 16
    ensures |Icmpv6PseudoHeader(src, dst, len)| % 2 == 0
  {
  }

  lemma StoredAround(b: seq<byte>, at: nat, c: uint16)
    requires at + 2 <= |b|
    ensures forall i :: 0 <= i < |b| && (i < at || at + 2 <= i) ==> Stored(b, at, c)[i] == b[i]
  {
  }

  /** Where the fields of three headers end up in the packet. */
  lemma Layout(eth: seq<byte>, ipv6: seq<byte>, icmpv6: seq<byte>)
    requires |eth| == ETH_HEADER_SIZE && |ipv6| == IPV6_HEADER_SIZE
    ensures var p := eth + ipv6 + icmpv6;
      && p[..6] == eth[..6] && p[6..12] == eth[6..12] && p[12] == eth[12] && p[13] == eth[13]
      && p[14..18] == ipv6[..4] && PayloadLength(p) == Word(ipv6[4], ipv6[5]) && NextHeader(p) == ipv6[6]
      && p[21] == ipv6[7] && SourceAddress(p) == ipv6[8..24] && DestinationAddress(p) == ipv6[24..]
      && Icmpv6(p) == icmpv6
  {
  }

  /** An answer is never taken for a solicitation: two drivers cannot answer each other forever. */
  lemma AnswerIsNoSolicitation(reply: Memory, p: Memory, mac: seq<byte>, peer: seq<byte>)
    requires IsAnswer(reply, p, mac, peer)
    ensures !IsSolicitation(reply)
  {
    assert Icmpv6(reply)[0] == Icmpv6(reply)[..2][0];
  }
}
