/** The DHCP replies of dhcp.c: headers, options, checksums, and the packet that is injected. */
module DhcpMessage {
  import opened Collections
  import opened Bytes
  import opened Checksum
  import opened DhcpOptions

  type Mac = b: seq<byte> | |b| == 6 witness [0, 0, 0, 0, 0, 0]

  /** An IPv4 address in network byte order. */
  type Ip4 = b: seq<byte> | |b| == 4 witness [0, 0, 0, 0]

  const NO_IP: Ip4 := [0, 0, 0, 0]
  const BROADCAST_IP: Ip4 := [255, 255, 255, 255]
  const ETH_P_IP: uint16 := 0x0800
  const BOOTPS_PORT: uint16 := 67
  const BOOTPC_PORT: uint16 := 68
  const BOOTREQUEST: byte := 1
  const BOOTREPLY: byte := 2
  const DHCPDISCOVER: byte := 1
  const DHCPOFFER: byte := 2
  const DHCPREQUEST: byte := 3
  const DHCPACK: byte := 5
  const DHCPNAK: byte := 6
  const MAGIC: uint32 := 0x63825363

  //
  // Headers. Multi-byte fields hold the number that the wire carries in network byte order.
  //

  datatype EthHeader = EthHeader(dest: Mac, src: Mac, proto: uint16)

  datatype IpHeader = IpHeader(
    versionLen: byte, tos: byte, totLen: uint16, id: uint16, fragOff: uint16,
    ttl: byte, protocol: byte, check: uint16, saddr: Ip4, daddr: Ip4)

  datatype UdpHeader = UdpHeader(source: uint16, dest: uint16, len: uint16, check: uint16)

  datatype DhcpHeader = DhcpHeader(
    op: byte, htype: byte, hlen: byte, hops: byte, xid: uint32, secs: uint16, flags: uint16,
    ciaddr: Ip4, yiaddr: Ip4, siaddr: Ip4, giaddr: Ip4, chaddr: Mac, magic: uint32)

  function EthBytes(h: EthHeader): (b: seq<byte>)
    ensures |b| == 14
  {
    h.dest + h.src + Be16(h.proto)
  }

  function IpBytes(h: IpHeader): (b: seq<byte>)
    ensures |b| == 20
  {
    [h.versionLen, h.tos] + Be16(h.totLen) + Be16(h.id) + Be16(h.fragOff) + [h.ttl, h.protocol] + Be16(h.check)
    + h.saddr + h.daddr
  }

  function UdpBytes(h: UdpHeader): (b: seq<byte>)
    ensures |b| == 8
  {
    Be16(h.source) + Be16(h.dest) + Be16(h.len) + Be16(h.check)
  }

  /** chaddr fills 6 of 16 bytes; sname and file stay zero. */
  function DhcpBytes(h: DhcpHeader): (b: seq<byte>)
    ensures |b| == 240
  {
    [h.op, h.htype, h.hlen, h.hops] + Be32(h.xid) + Be16(h.secs) + Be16(h.flags)
    + h.ciaddr + h.yiaddr + h.siaddr + h.giaddr + h.chaddr + Zeros(10 + 64 + 128) + Be32(h.magic)
  }

  /** The configuration of the DHCP server that the adapter masquerades as. */
  datatype Config = Config(
    mac: Mac, broadcast: Mac, addr: Ip4, netmask: Ip4, serverIp: Ip4, serverMac: Mac, leaseTime: uint32,
    userOptions: seq<byte>)

  /** The option chunks of a reply, in the order in which SendDHCPMsg appends them. */
  function OptionChunks(a: Config, msgType: byte): seq<seq<byte>> {
    [[DHCP_MSG_TYPE, 1, msgType], [DHCP_SERVER_ID, 4] + a.serverIp]
    + (if msgType == DHCPOFFER || msgType == DHCPACK
       then [[DHCP_LEASE_TIME, 4] + Be32(a.leaseTime), [DHCP_NETMASK, 4] + a.netmask, a.userOptions]
       else [])
    + [[DHCP_END]]
  }

  /** The option bytes of a reply. */
  function OptionBytes(a: Config, msgType: byte): seq<byte> {
    Concat(OptionChunks(a, msgType))
  }

  class DhcpMsg {
    var optlen: nat
    var overflow: bool
    var eth: EthHeader
    var ip: IpHeader
    var udp: UdpHeader
    var dhcp: DhcpHeader
    const options: array<byte>

    ghost predicate Valid()
      reads this
    {
      options.Length == DHCP_OPTIONS_BUFFER_SIZE && optlen <= DHCP_OPTIONS_BUFFER_SIZE
    }

    ghost function Buf(): Buffer
      requires Valid()
      reads this, options
    {
      Buffer(options[..optlen], overflow)
    }

    /** A zeroed message. */
    constructor ()
      ensures Valid() && fresh(options) && Buf() == Buffer([], false)
    {
      optlen, overflow := 0, false;
      options := new byte[DHCP_OPTIONS_BUFFER_SIZE](_ => 0);
      eth := EthHeader(Zeros(6), Zeros(6), 0);
      ip := IpHeader(0, 0, 0, 0, 0, 0, 0, 0, NO_IP, NO_IP);
      udp := UdpHeader(0, 0, 0, 0);
      dhcp := DhcpHeader(0, 0, 0, 0, 0, 0, 0, NO_IP, NO_IP, NO_IP, NO_IP, Zeros(6), 0);
    }

    /** SetDHCPOpt */
    method SetOpt(data: seq<byte>)
      requires Valid()
      modifies this`optlen, this`overflow, options
      ensures Valid() && Buf() == Append(old(Buf()), data)
    {
      if !overflow {
        if optlen + |data| <= DHCP_OPTIONS_BUFFER_SIZE {
          if |data| > 0 {
            forall i | 0 <= i < |data| {
              options[optlen + i] := data[i];
            }
            optlen := optlen + |data|;
          }
        } else {
          overflow := true;
        }
      }
    }

    method SetOpt0(code: byte)
      requires Valid()
      modifies this`optlen, this`overflow, options
      ensures Valid() && Buf() == Append(old(Buf()), [code])
    {
      SetOpt([code]);
    }

    method SetOpt8(code: byte, data: byte)
      requires Valid()
      modifies this`optlen, this`overflow, options
      ensures Valid() && Buf() == Append(old(Buf()), [code, 1, data])
    {
      SetOpt([code, 1, data]);
    }

    method SetOpt32(code: byte, data: seq<byte>)
      requires Valid() && |data| == 4
      modifies this`optlen, this`overflow, options
      ensures Valid() && Buf() == Append(old(Buf()), [code, 4] + data)
    {
      SetOpt([code, 4] + data);
    }

    /** The option part of SendDHCPMsg. */
    method SetOptions(a: Config, msgType: byte)
      requires Valid() && Buf() == Buffer([], false)
      modifies this`optlen, this`overflow, options
      ensures Valid() && Buf() == AppendAll(OptionChunks(a, msgType))
    {
      ghost var chunks := OptionChunks(a, msgType);
      hide Append;
      SetOpt8(DHCP_MSG_TYPE, msgType);
      SetOpt32(DHCP_SERVER_ID, a.serverIp);
      AppendAllNext(chunks, 0);
      AppendAllNext(chunks, 1);
      if msgType == DHCPOFFER || msgType == DHCPACK {
        SetOpt32(DHCP_LEASE_TIME, Be32(a.leaseTime));
        SetOpt32(DHCP_NETMASK, a.netmask);
        SetOpt(a.userOptions);
        AppendAllNext(chunks, 2);
        AppendAllNext(chunks, 3);
        AppendAllNext(chunks, 4);
      }
      SetOpt0(DHCP_END);
      AppendAllNext(chunks, |chunks| - 1);
      assert chunks[..|chunks|] == chunks;
    }

    /** BuildDHCPPre: everything but the options and the checksums. */
    method BuildPre(a: Config, req: EthHeader, reqDhcp: DhcpHeader, msgType: byte)
      requires Valid()
      modifies this`eth, this`ip, this`udp, this`dhcp
      ensures eth == ReplyEth(a, msgType, req) && ip == ReplyIp(a, msgType, req, optlen, 0)
      ensures udp == ReplyUdp(optlen, 0) && dhcp == ReplyDhcp(a, msgType, req, reqDhcp)
    {
      var broadcast := msgType == DHCPNAK || req.dest == a.broadcast;
      eth := EthHeader(if broadcast then a.broadcast else req.src, a.serverMac, ETH_P_IP);
      ip := IpHeader(4 * 16 + 20 / 4, 0, (20 + 8 + 240 + optlen) as uint16, 0, 0, 16, 17, 0, a.serverIp,
                     if broadcast then BROADCAST_IP else a.addr);
      udp := UdpHeader(BOOTPS_PORT, BOOTPC_PORT, (8 + 240 + optlen) as uint16, 0);
      dhcp := DhcpHeader(BOOTREPLY, 1, 6, 0, reqDhcp.xid, 0, 0, NO_IP,
                         if msgType == DHCPNAK then NO_IP else a.addr, a.serverIp, NO_IP, req.src, MAGIC);
    }

    /** SetChecksumDHCPMsg */
    method SetChecksums()
      requires Valid() && ip.check == 0 && udp.check == 0
      modifies this`ip, this`udp
      ensures ip == old(ip).(check := ip.check) && udp == old(udp).(check := udp.check)
      ensures Verifies(IpBytes(ip))
      ensures Verifies(UdpPseudoHeader(ip.saddr, ip.daddr, (248 + optlen) as uint16)
                       + (UdpBytes(udp) + DhcpBytes(dhcp) + options[..optlen]))
    {
      var header := IpBytes(ip);
      var check := IpChecksum(header);
      assert header[..20] == header;
      StoredChecksumVerifies(header, 10);
      IpCheckField(ip, check);
      ip := ip.(check := check);
      ghost var rest := DhcpBytes(dhcp) + options[..optlen];
      var segment := UdpBytes(udp) + DhcpBytes(dhcp) + options[..optlen];
      assert segment == UdpBytes(udp) + rest;
      check := UdpChecksum(segment, ip.saddr, ip.daddr);
      assert |segment| == 8 + |rest| == 248 + optlen;
      UdpCheckVerifies(ip, udp, rest, check);
      assert UdpBytes(udp.(check := check)) + DhcpBytes(dhcp) + options[..optlen]
        == UdpBytes(udp.(check := check)) + rest;
      udp := udp.(check := check);
    }
  }

  lemma AppendAllNext(chunks: seq<seq<byte>>, k: nat)
    requires k < |chunks|
    ensures AppendAll(chunks[..k + 1]) == Append(AppendAll(chunks[..k]), chunks[k])
    ensures AppendAll(chunks[..0]) == Buffer([], false)
  {
    assert chunks[..k + 1][..k] == chunks[..k];
  }

  /**
   * The packet of a reply: what the lengths say is what is there, and both checksums verify at
   * the receiver.
   */
  ghost predicate WellFormed(pkt: seq<byte>, optlen: nat) {
    && |pkt| == 282 + optlen && optlen <= DHCP_OPTIONS_BUFFER_SIZE
    && pkt[16..18] == Be16((|pkt| - 14) as uint16)
    && pkt[38..40] == Be16((|pkt| - 34) as uint16)
    && Verifies(pkt[14..34])
    && Verifies(UdpPseudoHeader(pkt[26..30], pkt[30..34], (|pkt| - 34) as uint16) + pkt[34..])
  }

  /** DHCPMSG_BUF: the structure as it lies in memory. */
  function Packet(eth: EthHeader, ip: IpHeader, udp: UdpHeader, dhcp: DhcpHeader, opts: seq<byte>): seq<byte> {
    EthBytes(eth) + IpBytes(ip) + UdpBytes(udp) + DhcpBytes(dhcp) + opts
  }

  predicate Broadcasts(a: Config, msgType: byte, req: EthHeader) {
    msgType == DHCPNAK || req.dest == a.broadcast
  }

  /** The headers of a reply. */
  function ReplyEth(a: Config, msgType: byte, req: EthHeader): EthHeader {
    EthHeader(if Broadcasts(a, msgType, req) then a.broadcast else req.src, a.serverMac, ETH_P_IP)
  }

  function ReplyIp(a: Config, msgType: byte, req: EthHeader, optlen: nat, check: uint16): IpHeader
    requires optlen <= DHCP_OPTIONS_BUFFER_SIZE
  {
    IpHeader(0x45, 0, (268 + optlen) as uint16, 0, 0, 16, 17, check, a.serverIp,
             if Broadcasts(a, msgType, req) then BROADCAST_IP else a.addr)
  }

  function ReplyUdp(optlen: nat, check: uint16): UdpHeader
    requires optlen <= DHCP_OPTIONS_BUFFER_SIZE
  {
    UdpHeader(BOOTPS_PORT, BOOTPC_PORT, (248 + optlen) as uint16, check)
  }

  function ReplyDhcp(a: Config, msgType: byte, req: EthHeader, reqDhcp: DhcpHeader): DhcpHeader {
    DhcpHeader(BOOTREPLY, 1, 6, 0, reqDhcp.xid, 0, 0, NO_IP,
               if msgType == DHCPNAK then NO_IP else a.addr, a.serverIp, NO_IP, req.src, MAGIC)
  }

  /** The packet of a reply, with the given checksums. */
  function ReplyPacket(a: Config, msgType: byte, req: EthHeader, reqDhcp: DhcpHeader, c: uint16, d: uint16): seq<byte>
    requires |OptionBytes(a, msgType)| <= DHCP_OPTIONS_BUFFER_SIZE
  {
    var optlen := |OptionBytes(a, msgType)|;
    Packet(ReplyEth(a, msgType, req), ReplyIp(a, msgType, req, optlen, c), ReplyUdp(optlen, d),
           ReplyDhcp(a, msgType, req, reqDhcp), OptionBytes(a, msgType))
  }

  /**
   * What is sent in answer to a message. There is a reply exactly when it could be allocated
   * and the user options leave it room; it is the packet of these headers and options, well
   * formed, and a receiver that scans its options finds its type.
   */
  ghost predicate IsReply(pkt: Option<seq<byte>>, a: Config, msgType: byte, req: EthHeader, reqDhcp: DhcpHeader,
                          gotMemory: bool) {
    && (pkt.Some? <==>
          gotMemory && (msgType == DHCPNAK || ((msgType == DHCPOFFER || msgType == DHCPACK) && |a.userOptions| <= 234)))
    && (pkt.Some? ==>
          var optlen := |OptionBytes(a, msgType)|;
          && optlen == (if msgType == DHCPNAK then 10 else 22 + |a.userOptions|) <= DHCP_OPTIONS_BUFFER_SIZE
          && WellFormed(pkt.value, optlen)
          && MessageType(Decode(pkt.value[282..])) == msgType as int
          && exists c, d :: pkt.value == ReplyPacket(a, msgType, req, reqDhcp, c, d))
  }

  /** Where the headers lie in a packet. */
  lemma HeadersIn(eth: EthHeader, ip: IpHeader, udp: UdpHeader, dhcp: DhcpHeader, opts: seq<byte>)
    ensures var pkt := Packet(eth, ip, udp, dhcp, opts);
      && |pkt| == 282 + |opts| && pkt[..14] == EthBytes(eth) && pkt[14..34] == IpBytes(ip)
      && pkt[34..42] == UdpBytes(udp) && pkt[42..282] == DhcpBytes(dhcp) && pkt[282..] == opts
      && pkt[34..] == UdpBytes(udp) + DhcpBytes(dhcp) + opts
  {
    hide EthBytes, IpBytes, UdpBytes, DhcpBytes;
  }

  lemma EthFields(h: EthHeader)
    ensures EthBytes(h)[..6] == h.dest && EthBytes(h)[6..12] == h.src && EthBytes(h)[12..] == Be16(h.proto)
  {
    hide Be16;
  }

  lemma IpFields(h: IpHeader)
    ensures var b := IpBytes(h);
      && b[0] == h.versionLen && b[2..4] == Be16(h.totLen) && b[6..8] == Be16(h.fragOff)
      && b[9] == h.protocol && b[12..16] == h.saddr && b[16..20] == h.daddr
  {
    hide Be16;
  }

  lemma UdpFields(h: UdpHeader)
    ensures var b := UdpBytes(h);
      b[..2] == Be16(h.source) && b[2..4] == Be16(h.dest) && b[4..6] == Be16(h.len)
  {
    hide Be16;
  }

  lemma DhcpFields(h: DhcpHeader)
    ensures var b := DhcpBytes(h);
      && b[0] == h.op && b[4..8] == Be32(h.xid) && b[16..20] == h.yiaddr && b[20..24] == h.siaddr
      && b[28..34] == h.chaddr && b[236..] == Be32(h.magic)
  {
    hide Be16, Be32, Zeros;
    var b := DhcpBytes(h);
    var start := [h.op, h.htype, h.hlen, h.hops] + Be32(h.xid) + Be16(h.secs) + Be16(h.flags);
    assert start[4..8] == Be32(h.xid);
    var addresses := h.ciaddr + h.yiaddr + h.siaddr + h.giaddr;
    assert addresses[4..8] == h.yiaddr && addresses[8..12] == h.siaddr;
    var end := h.chaddr + Zeros(10 + 64 + 128) + Be32(h.magic);
    assert end[..6] == h.chaddr && end[208..] == Be32(h.magic);
    assert b == start + addresses + end;
    assert b[..12] == start && b[12..28] == addresses && b[28..] == end;
    Inside(b, 0, 12, 4, 8);
    Inside(b, 12, 28, 4, 8);
    Inside(b, 12, 28, 8, 12);
    Inside(b, 28, 240, 0, 6);
    Inside(b, 28, 240, 208, 212);
  }

  /** Where the fields lie in the packet. */
  lemma FieldsAt(eth: EthHeader, ip: IpHeader, udp: UdpHeader, dhcp: DhcpHeader, opts: seq<byte>)
    ensures var pkt := Packet(eth, ip, udp, dhcp, opts);
      && |pkt| == 282 + |opts|
      && pkt[..6] == eth.dest && pkt[6..12] == eth.src && pkt[12..14] == Be16(eth.proto)
      && pkt[14] == ip.versionLen && pkt[16..18] == Be16(ip.totLen) && pkt[20..22] == Be16(ip.fragOff)
      && pkt[23] == ip.protocol && pkt[26..30] == ip.saddr && pkt[30..34] == ip.daddr
      && pkt[34..36] == Be16(udp.source) && pkt[36..38] == Be16(udp.dest) && pkt[38..40] == Be16(udp.len)
      && pkt[42] == dhcp.op && pkt[46..50] == Be32(dhcp.xid) && pkt[58..62] == dhcp.yiaddr
      && pkt[62..66] == dhcp.siaddr && pkt[70..76] == dhcp.chaddr && pkt[278..282] == Be32(dhcp.magic)
  {
    hide Packet, EthBytes, IpBytes, UdpBytes, DhcpBytes, Be16, Be32;
    var pkt := Packet(eth, ip, udp, dhcp, opts);
    HeadersIn(eth, ip, udp, dhcp, opts);
    EthFields(eth);
    IpFields(ip);
    UdpFields(udp);
    DhcpFields(dhcp);
    assert pkt[..6] == pkt[..14][..6];
    Inside(pkt, 0, 14, 6, 12);
    Inside(pkt, 0, 14, 12, 14);
    Inside(pkt, 14, 34, 2, 4);
    Inside(pkt, 14, 34, 6, 8);
    Inside(pkt, 14, 34, 12, 16);
    Inside(pkt, 14, 34, 16, 20);
    Inside(pkt, 34, 42, 0, 2);
    Inside(pkt, 34, 42, 2, 4);
    Inside(pkt, 34, 42, 4, 6);
    Inside(pkt, 42, 282, 4, 8);
    Inside(pkt, 42, 282, 16, 20);
    Inside(pkt, 42, 282, 20, 24);
    Inside(pkt, 42, 282, 28, 34);
    Inside(pkt, 42, 282, 236, 240);
    assert pkt[14] == pkt[14..34][0] && pkt[23] == pkt[14..34][9] && pkt[42] == pkt[42..282][0];
  }

  /** A slice of a slice is a slice of the whole. */
  lemma Inside(pkt: seq<byte>, from: nat, to: nat, i: nat, j: nat)
    requires from <= to <= |pkt| && i <= j <= to - from
    ensures pkt[from..to][i..j] == pkt[from + i..from + j]
  {
    forall k | 0 <= k < j - i
      ensures pkt[from..to][i..j][k] == pkt[from + i..from + j][k]
    {
      assert pkt[from..to][i..j][k] == pkt[from..to][i + k] == pkt[from + (i + k)];
    }
  }

  /** When a packet put together from headers and options is well formed. */
  lemma Assembled(eth: EthHeader, ip: IpHeader, udp: UdpHeader, dhcp: DhcpHeader, opts: seq<byte>)
    requires |opts| <= DHCP_OPTIONS_BUFFER_SIZE
    ensures var pkt := Packet(eth, ip, udp, dhcp, opts);
      && |pkt| == 282 + |opts| && pkt[282..] == opts
      && (WellFormed(pkt, |opts|) <==>
            && Be16(ip.totLen) == Be16((268 + |opts|) as uint16) && Be16(udp.len) == Be16((248 + |opts|) as uint16)
            && Verifies(IpBytes(ip))
            && Verifies(UdpPseudoHeader(ip.saddr, ip.daddr, (248 + |opts|) as uint16)
                        + (UdpBytes(udp) + DhcpBytes(dhcp) + opts)))
  {
    hide Packet, EthBytes, IpBytes, UdpBytes, DhcpBytes, Be16, Be32, Verifies, UdpPseudoHeader;
    HeadersIn(eth, ip, udp, dhcp, opts);
    FieldsAt(eth, ip, udp, dhcp, opts);
  }

  /**
   * A reply on the wire: IPv4 with a header of 20 bytes, unfragmented, UDP from the server's to
   * the client's port, in a datagram and a segment of the packet's true lengths. It answers the
   * requester's transaction and names its hardware address; it goes to all exactly when it is
   * a NAK or the request went to all, and offers an address unless it is a NAK (RFC 2131).
   */
  lemma ReplyOnTheWire(a: Config, msgType: byte, req: EthHeader, reqDhcp: DhcpHeader, c: uint16, d: uint16)
    requires |OptionBytes(a, msgType)| <= DHCP_OPTIONS_BUFFER_SIZE
    ensures var pkt := ReplyPacket(a, msgType, req, reqDhcp, c, d);
      var toAll := msgType == DHCPNAK || req.dest == a.broadcast;
      && |pkt| >= 282
      && pkt[12..14] == [0x08, 0x00] && pkt[14] == 0x45 && pkt[20..22] == [0, 0] && pkt[23] == 17
      && pkt[34..36] == [0, 67] && pkt[36..38] == [0, 68]
      && pkt[16..18] == Be16(|pkt[14..]| as uint16) && pkt[38..40] == Be16(|pkt[34..]| as uint16)
      && pkt[..6] == (if toAll then a.broadcast else req.src)
      && pkt[30..34] == (if toAll then [255, 255, 255, 255] else a.addr)
      && pkt[6..12] == a.serverMac && pkt[26..30] == pkt[62..66] == a.serverIp
      && pkt[42] == 2 && pkt[46..50] == Be32(reqDhcp.xid) && pkt[70..76] == req.src
      && pkt[58..62] == (if msgType == DHCPNAK then [0, 0, 0, 0] else a.addr)
      && pkt[278..282] == [0x63, 0x82, 0x53, 0x63]
  {
    hide Packet, EthBytes, IpBytes, UdpBytes, DhcpBytes, OptionBytes;
    var opts := OptionBytes(a, msgType);
    FieldsAt(ReplyEth(a, msgType, req), ReplyIp(a, msgType, req, |opts|, c), ReplyUdp(|opts|, d),
             ReplyDhcp(a, msgType, req, reqDhcp), opts);
  }

  /** The whole of it, header by header. */
  lemma ReplyInFull(a: Config, msgType: byte, req: EthHeader, reqDhcp: DhcpHeader, c: uint16, d: uint16)
    requires |OptionBytes(a, msgType)| <= 256
    ensures var opts := OptionBytes(a, msgType);
      var toAll := msgType == 6 || req.dest == a.broadcast;
      ReplyPacket(a, msgType, req, reqDhcp, c, d) ==
        ((if toAll then a.broadcast else req.src) + a.serverMac + [0x08, 0x00])
        + ([0x45, 0] + Be16((268 + |opts|) as uint16) + [0, 0, 0, 0, 16, 17] + Be16(c)
           + a.serverIp + (if toAll then [255, 255, 255, 255] else a.addr))
        + ([0, 67, 0, 68] + Be16((248 + |opts|) as uint16) + Be16(d))
        + ([2, 1, 6, 0] + Be32(reqDhcp.xid) + Zeros(8) + (if msgType == 6 then [0, 0, 0, 0] else a.addr)
           + a.serverIp + Zeros(4) + req.src + Zeros(202) + [0x63, 0x82, 0x53, 0x63])
        + opts
  {
    hide OptionBytes, EthBytes, IpBytes, UdpBytes, DhcpBytes, Be16, Be32, Zeros;
    var n := |OptionBytes(a, msgType)|;
    EthInFull(a, msgType, req);
    IpInFull(a, msgType, req, n, c);
    UdpInFull(n, d);
    DhcpInFull(a, msgType, req, reqDhcp);
  }

  lemma EthInFull(a: Config, msgType: byte, req: EthHeader)
    ensures var toAll := msgType == 6 || req.dest == a.broadcast;
      EthBytes(ReplyEth(a, msgType, req)) == (if toAll then a.broadcast else req.src) + a.serverMac + [0x08, 0x00]
  {
  }

  lemma IpInFull(a: Config, msgType: byte, req: EthHeader, n: nat, c: uint16)
    requires n <= 256
    ensures var toAll := msgType == 6 || req.dest == a.broadcast;
      IpBytes(ReplyIp(a, msgType, req, n, c)) ==
        [0x45, 0] + Be16((268 + n) as uint16) + [0, 0, 0, 0, 16, 17] + Be16(c)
        + a.serverIp + (if toAll then [255, 255, 255, 255] else a.addr)
  {
    assert Be16(0) == [0, 0];
    hide Be16;
    assert [0, 0] + [0, 0] + [16, 17] == [0, 0, 0, 0, 16, 17];
  }

  lemma UdpInFull(n: nat, d: uint16)
    requires n <= 256
    ensures UdpBytes(ReplyUdp(n, d)) == [0, 67, 0, 68] + Be16((248 + n) as uint16) + Be16(d)
  {
    assert Be16(67) + Be16(68) == [0, 67, 0, 68];
    hide Be16;
  }

  lemma DhcpInFull(a: Config, msgType: byte, req: EthHeader, reqDhcp: DhcpHeader)
    ensures DhcpBytes(ReplyDhcp(a, msgType, req, reqDhcp)) ==
      [2, 1, 6, 0] + Be32(reqDhcp.xid) + Zeros(8) + (if msgType == 6 then [0, 0, 0, 0] else a.addr)
      + a.serverIp + Zeros(4) + req.src + Zeros(202) + [0x63, 0x82, 0x53, 0x63]
  {
    assert Be16(0) == [0, 0] && Be32(MAGIC) == [0x63, 0x82, 0x53, 0x63];
    hide Be16, Be32;
    assert [0, 0] + [0, 0] + NO_IP == Zeros(8) && NO_IP == Zeros(4);
  }

  /** How long the options of a reply are: NAKs always fit, others up to 234 user bytes. */
  lemma OptionLength(a: Config, msgType: byte)
    ensures |OptionBytes(a, msgType)| ==
      if msgType == DHCPOFFER || msgType == DHCPACK then 22 + |a.userOptions| else 10
  {
    var c := OptionChunks(a, msgType);
    ConcatNext(c, 0);
    ConcatNext(c, 1);
    ConcatNext(c, 2);
    if msgType == DHCPOFFER || msgType == DHCPACK {
      ConcatNext(c, 3);
      ConcatNext(c, 4);
      ConcatNext(c, 5);
    }
    assert c[..|c|] == c;
  }

  lemma ConcatNext(chunks: seq<seq<byte>>, k: nat)
    requires k < |chunks|
    ensures Concat(chunks[..k + 1]) == Concat(chunks[..k]) + chunks[k]
    ensures Concat(chunks[..0]) == []
  {
    assert chunks[..k + 1][..k] == chunks[..k];
  }

  lemma {:induction false} ConcatStartsWith(chunks: seq<seq<byte>>)
    requires chunks != []
    ensures chunks[0] <= Concat(chunks)
  {
    if |chunks| == 1 {
      assert chunks[..0] == [];
    } else {
      ConcatStartsWith(chunks[..|chunks| - 1]);
    }
  }

  /** SendDHCPMsg, up to the injection; `gotMemory` says whether the message could be allocated. */
  method SendDHCPMsg(a: Config, msgType: byte, req: EthHeader, reqDhcp: DhcpHeader, gotMemory: bool)
    returns (pkt: Option<seq<byte>>)
    ensures IsReply(pkt, a, msgType, req, reqDhcp, gotMemory)
  {
    if !(msgType == DHCPOFFER || msgType == DHCPACK || msgType == DHCPNAK) {
      return None;
    }
    if !gotMemory {
      return None;
    }
    hide OptionBytes;
    var m := new DhcpMsg();
    m.SetOptions(a, msgType);
    AppendAllFits(OptionChunks(a, msgType));
    OptionLength(a, msgType);
    assert OptionBytes(a, msgType) == Concat(OptionChunks(a, msgType)) by {
      OptionBytesAre(a, msgType);
    }
    if m.overflow {
      return None;
    }
    var built := FinishReply(m, a, msgType, req, reqDhcp);
    return Some(built);
  }

  lemma OptionBytesAre(a: Config, msgType: byte)
    ensures OptionBytes(a, msgType) == Concat(OptionChunks(a, msgType))
  {
  }

  /** The rest of SendDHCPMsg, once the options are in place. */
  method FinishReply(m: DhcpMsg, a: Config, msgType: byte, req: EthHeader, reqDhcp: DhcpHeader)
    returns (pkt: seq<byte>)
    requires m.Valid() && m.options[..m.optlen] == OptionBytes(a, msgType)
    modifies m
    ensures |OptionBytes(a, msgType)| <= DHCP_OPTIONS_BUFFER_SIZE
    ensures WellFormed(pkt, |OptionBytes(a, msgType)|) && MessageType(Decode(pkt[282..])) == msgType as int
    ensures exists c, d :: pkt == ReplyPacket(a, msgType, req, reqDhcp, c, d)
  {
    hide WellFormed, Packet, Verifies, OptionBytes, Decode, MessageType;
    m.BuildPre(a, req, reqDhcp, msgType);
    m.SetChecksums();
    Assembled(m.eth, m.ip, m.udp, m.dhcp, m.options[..m.optlen]);
    ReplyType(a, msgType);
    assert m.ip == ReplyIp(a, msgType, req, m.optlen, m.ip.check) && m.udp == ReplyUdp(m.optlen, m.udp.check);
    pkt := Packet(m.eth, m.ip, m.udp, m.dhcp, m.options[..m.optlen]);
    assert pkt == ReplyPacket(a, msgType, req, reqDhcp, m.ip.check, m.udp.check);
  }

  /** The scan of a reply's options finds the type it was built with. */
  lemma ReplyType(a: Config, msgType: byte)
    ensures MessageType(Decode(OptionBytes(a, msgType))) == msgType as int
  {
    ConcatStartsWith(OptionChunks(a, msgType));
    var o := OptionBytes(a, msgType);
    assert o == [DHCP_MSG_TYPE, 1, msgType] + o[3..];
    LeadingMessageType(msgType, o[3..]);
  }

  /**
   * What the client finds in a reply: the type (53) and the server's address (54); unless it is
   * a NAK also the lease time (51) and the netmask (1), and after these the user's options.
   */
  lemma ReplyOptions(a: Config, msgType: byte)
    ensures var server := [Opt(53, 1, [msgType]), Opt(54, 4, a.serverIp)];
      Decode(OptionBytes(a, msgType)) ==
        if msgType == 2 || msgType == 5
        then server + [Opt(51, 4, Be32(a.leaseTime)), Opt(1, 4, a.netmask)] + Decode(a.userOptions + [255])
        else server
  {
    hide Decode, Concat, OptionBytes, Be32;
    var lease := if msgType == 2 || msgType == 5 then a.userOptions + [DHCP_END] else [DHCP_END];
    OptionsInFull(a, msgType);
    EndOnly();
    var rest := lease;
    if msgType == 2 || msgType == 5 {
      DecodeFirst(Opt(1, 4, a.netmask), rest);
      rest := [1, 4] + a.netmask + rest;
      DecodeFirst(Opt(51, 4, Be32(a.leaseTime)), rest);
      rest := [51, 4] + Be32(a.leaseTime) + rest;
    }
    DecodeFirst(Opt(54, 4, a.serverIp), rest);
    rest := [54, 4] + a.serverIp + rest;
    DecodeFirst(Opt(53, 1, [msgType]), rest);
    assert OptionBytes(a, msgType) == [53, 1] + [msgType] + rest;
  }

  /**
   * The two checksums in the packet's own bytes: the IP header, and addresses, protocol, length
   * and segment (RFC 768).
   */
  lemma ChecksumsOnTheWire(pkt: seq<byte>, a: Config, msgType: byte, req: EthHeader, reqDhcp: DhcpHeader, gotMemory: bool)
    requires IsReply(Some(pkt), a, msgType, req, reqDhcp, gotMemory)
    ensures |pkt| >= 282 && pkt[23] == 17
    ensures Verifies(pkt[14..34]) && Verifies(pkt[26..34] + [0, pkt[23]] + pkt[38..40] + pkt[34..])
  {
    hide Verifies, ReplyPacket, MessageType, Decode, OptionBytes, Be16;
    var c, d :| pkt == ReplyPacket(a, msgType, req, reqDhcp, c, d);
    ReplyOnTheWire(a, msgType, req, reqDhcp, c, d);
    var len := (|pkt| - 34) as uint16;
    assert UdpPseudoHeader(pkt[26..30], pkt[30..34], len) == pkt[26..34] + [0, pkt[23]] + pkt[38..40];
  }

  lemma EndOnly()
    ensures Decode([DHCP_END]) == []
  {
  }

  lemma OptionsInFull(a: Config, msgType: byte)
    ensures OptionBytes(a, msgType) == [53, 1, msgType] + ([54, 4] + a.serverIp +
      if msgType == 2 || msgType == 5
      then [51, 4] + Be32(a.leaseTime) + ([1, 4] + a.netmask + (a.userOptions + [255]))
      else [255])
  {
    hide Be32;
    var c := OptionChunks(a, msgType);
    ConcatNext(c, 0);
    ConcatNext(c, 1);
    ConcatNext(c, 2);
    if msgType == DHCPOFFER || msgType == DHCPACK {
      ConcatNext(c, 3);
      ConcatNext(c, 4);
      ConcatNext(c, 5);
    }
    assert c[..|c|] == c;
  }

  /** The check field of the IP header is the word at byte 10. */
  lemma IpCheckField(h: IpHeader, check: uint16)
    ensures IpBytes(h.(check := check)) == Stored(IpBytes(h), 10, check)
    ensures h.check == 0 ==> IpBytes(h)[10] == IpBytes(h)[11] == 0
  {
  }

  /** The check field of the UDP header is the word at byte 6, and 18 behind the pseudo-header. */
  lemma UdpCheckVerifies(ip: IpHeader, udp: UdpHeader, rest: seq<byte>, check: uint16)
    requires udp.check == 0 && 8 + |rest| <= 0xffff
    requires check == InternetChecksum(UdpPseudoHeader(ip.saddr, ip.daddr, (8 + |rest|) as uint16) + (UdpBytes(udp) + rest))
    ensures Verifies(UdpPseudoHeader(ip.saddr, ip.daddr, (8 + |rest|) as uint16)
                     + (UdpBytes(udp.(check := check)) + rest))
  {
    var pseudo := UdpPseudoHeader(ip.saddr, ip.daddr, (8 + |rest|) as uint16);
    var b := pseudo + (UdpBytes(udp) + rest);
    assert b[18] == b[19] == 0;
    StoredChecksumVerifies(b, 18);
    assert Stored(b, 18, check) == pseudo + (UdpBytes(udp.(check := check)) + rest);
  }
}
