/** DHCP options (RFC 2132): reading the message type out of them, and appending them. */
module DhcpOptions {
  import opened Bytes
  import opened Collections

  const DHCP_PAD: byte := 0
  const DHCP_NETMASK: byte := 1
  const DHCP_LEASE_TIME: byte := 51
  const DHCP_MSG_TYPE: byte := 53
  const DHCP_SERVER_ID: byte := 54
  const DHCP_END: byte := 255
  const DHCP_OPTIONS_BUFFER_SIZE := 256

  //
  // Reading
  //

  /** An option as found: its code, the length it claims, and the bytes that are there. */
  datatype Opt = Opt(code: byte, length: byte, data: seq<byte>)

  /**
   * The options of a byte string, up to the END option or the end of the string. A last option
   * may be cut short: its data is then shorter than its length.
   */
  function Decode(p: seq<byte>): (opts: seq<Opt>)
    ensures forall o :: o in opts ==> |o.data| <= o.length as nat
    decreases |p|
  {
    if p == [] || p[0] == DHCP_END then []
    else if p[0] == DHCP_PAD then Decode(p[1..])
    else if |p| == 1 then [Opt(p[0], 0, [])]
    else
      var end := Min(2 + p[1] as nat, |p|);
      [Opt(p[0], p[1], p[2..end])] + Decode(p[end..])
  }

  /** Section 9.6 of RFC 2132: the value of the first message-type option, if it has length 1. */
  function MessageType(opts: seq<Opt>): int {
    if opts == [] then -1
    else if opts[0].code != DHCP_MSG_TYPE then MessageType(opts[1..])
    else if opts[0].length == 1 && |opts[0].data| == 1 then opts[0].data[0] as int
    else -1
  }

  /** What the decoder finds from place `i` on. */
  ghost function TypeFrom(p: seq<byte>, i: nat): int {
    MessageType(Decode(Rest(p, i)))
  }

  /** How what is found in a byte string depends on its first option. */
  lemma TypeOfFirst(p: seq<byte>)
    requires p != []
    ensures p[0] == DHCP_END ==> MessageType(Decode(p)) == -1
    ensures p[0] == DHCP_PAD ==> MessageType(Decode(p)) == MessageType(Decode(p[1..]))
    ensures p[0] == DHCP_MSG_TYPE ==>
      MessageType(Decode(p)) == if |p| > 2 && p[1] == 1 then p[2] as int else -1
    ensures p[0] !in {DHCP_END, DHCP_PAD, DHCP_MSG_TYPE} ==>
      MessageType(Decode(p)) == if |p| > 1 then MessageType(Decode(p[Min(2 + p[1] as nat, |p|)..])) else -1
  {
    if p[0] != DHCP_END && p[0] != DHCP_PAD {
      if |p| == 1 {
        assert [Opt(p[0], 0, [])][1..] == [];
      } else {
        var end := Min(2 + p[1] as nat, |p|);
        var first, others := Opt(p[0], p[1], p[2..end]), Decode(p[end..]);
        assert Decode(p) == [first] + others;
        assert ([first] + others)[1..] == others;
      }
    }
  }

  /** How what is found from one place depends on what is found further on. */
  lemma ScanStep(p: seq<byte>, i: nat)
    requires i < |p|
    ensures p[i] == 255 ==> TypeFrom(p, i) == -1
    ensures p[i] == 0 ==> TypeFrom(p, i) == TypeFrom(p, i + 1)
    ensures p[i] == 53 ==>
      TypeFrom(p, i) == if i + 2 < |p| && p[i + 1] == 1 then p[i + 2] as int else -1
    ensures p[i] !in {255, 0, 53} ==>
      TypeFrom(p, i) == if i + 1 < |p| then TypeFrom(p, i + 2 + p[i + 1] as int) else -1
  {
    hide Decode, MessageType, Rest;
    RestOfRest(p, i, 1);
    TypeOfFirst(Rest(p, i));
    if i + 1 < |p| {
      RestOfRest(p, i, 2 + p[i + 1] as nat);
    }
  }

  lemma RestOfRest(p: seq<byte>, i: nat, k: nat)
    requires i < |p|
    ensures var rest := Rest(p, i);
      && |rest| == |p| - i && (forall j :: 0 <= j < |rest| ==> rest[j] == p[i + j])
      && rest[Min(k, |rest|)..] == Rest(p, i + k)
  {
    var rest := Rest(p, i);
    if k <= |rest| {
      assert rest[k..] == p[i + k..];
    } else {
      assert rest[|rest|..] == [];
    }
  }

  /** GetDHCPMessageType: the in-place scan agrees with the decoder. */
  method GetDHCPMessageType(p: seq<byte>) returns (msgType: int)
    ensures msgType == MessageType(Decode(p))
  {
    hide Decode, MessageType;
    var i := 0;
    assert Rest(p, 0) == p;
    while i < |p|
      invariant 0 <= i && TypeFrom(p, i) == MessageType(Decode(p))
      decreases |p| - i
    {
      var code := p[i];
      var room := |p| - i - 1;
      ScanStep(p, i);
      if code == DHCP_END {
        return -1;
      } else if code == DHCP_PAD {
        // no operation
      } else if code == DHCP_MSG_TYPE {
        if room >= 2 {
          if p[i + 1] == 1 {
            return p[i + 2] as int;
          }
        }
        return -1;
      } else {
        if room >= 1 {
          var len := p[i + 1] as int;
          i := i + len + 1;
        } else {
          NothingFound(p, i + 1);
        }
      }
      i := i + 1;
    }
    NothingFound(p, i);
    return -1;
  }

  lemma NothingFound(p: seq<byte>, i: nat)
    requires |p| <= i
    ensures TypeFrom(p, i) == -1
  {
    assert Rest(p, i) == [];
  }

  /** An option that can be written down. */
  predicate Sound(o: Opt) {
    o.code != DHCP_PAD && o.code != DHCP_END && |o.data| == o.length as nat
  }

  function Encode(o: Opt): seq<byte> {
    [o.code, o.length] + o.data
  }

  function EncodeAll(opts: seq<Opt>): seq<byte> {
    if opts == [] then [] else Encode(opts[0]) + EncodeAll(opts[1..])
  }

  /** The decoder gets back what was written before the END option, whatever follows it. */
  lemma {:induction false} DecodeInvertsEncode(opts: seq<Opt>, after: seq<byte>)
    requires forall o :: o in opts ==> Sound(o)
    ensures Decode(EncodeAll(opts) + [DHCP_END] + after) == opts
  {
    var p := EncodeAll(opts) + [DHCP_END] + after;
    if opts == [] {
      assert p[0] == DHCP_END;
    } else {
      var o := opts[0];
      var rest := EncodeAll(opts[1..]) + [DHCP_END] + after;
      assert p == Encode(o) + rest;
      var end := 2 + |o.data|;
      assert o in opts && p[0] == o.code && p[1] == o.length;
      assert p[2..end] == o.data && p[end..] == rest;
      DecodeInvertsEncode(opts[1..], after);
      assert Decode(p) == [o] + opts[1..];
    }
  }

  /** An option in front is decoded first, and then what follows it. */
  lemma DecodeFirst(o: Opt, rest: seq<byte>)
    requires Sound(o)
    ensures Decode([o.code, o.length] + o.data + rest) == [o] + Decode(rest)
  {
    var p := [o.code, o.length] + o.data + rest;
    var end := 2 + |o.data|;
    assert p[2..end] == o.data && p[end..] == rest;
  }

  /** A leading message-type option is what the scan returns. */
  lemma LeadingMessageType(msgType: byte, rest: seq<byte>)
    ensures MessageType(Decode([DHCP_MSG_TYPE, 1, msgType] + rest)) == msgType as int
  {
    var p := [DHCP_MSG_TYPE, 1, msgType] + rest;
    assert p[2..3] == [msgType];
    assert Decode(p)[0] == Opt(DHCP_MSG_TYPE, 1, [msgType]);
  }

  //
  // Appending
  //

  /** The option bytes of a message under construction, and whether some did not fit. */
  datatype Buffer = Buffer(bytes: seq<byte>, overflow: bool)

  function Append(b: Buffer, data: seq<byte>): Buffer {
    if b.overflow then b
    else if |b.bytes| + |data| <= DHCP_OPTIONS_BUFFER_SIZE then b.(bytes := b.bytes + data)
    else b.(overflow := true)
  }

  function AppendAll(chunks: seq<seq<byte>>): Buffer {
    if chunks == [] then Buffer([], false)
    else Append(AppendAll(chunks[..|chunks| - 1]), chunks[|chunks| - 1])
  }

  /** Overflow is set exactly when the whole does not fit; else the buffer is the whole. */
  lemma {:induction false} AppendAllFits(chunks: seq<seq<byte>>)
    ensures AppendAll(chunks).overflow <==> |Concat(chunks)| > DHCP_OPTIONS_BUFFER_SIZE
    ensures !AppendAll(chunks).overflow ==> AppendAll(chunks).bytes == Concat(chunks)
    ensures |AppendAll(chunks).bytes| <= DHCP_OPTIONS_BUFFER_SIZE
  {
    if chunks == [] {
    } else {
      AppendAllFits(chunks[..|chunks| - 1]);
    }
  }
}
