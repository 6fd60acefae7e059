/**
 * The parser of Ethernet frames (EthernetFrame.cs): VLAN and QinQ tags, and then Ethernet II,
 * IEEE 802.2, SNAP or raw 802.3.
 */
module EthernetFrame {
  import opened Collections
  import opened Bytes

  datatype Exception = IndexOutOfRange | Argument | Overflow

  datatype FrameType = Ethernet_II | Ethernet_RAW | Ethernet_IEEE | Ethernet_SNAP

  /** An outer tag: its type and its value. */
  datatype QinQ = QinQ(tpid: nat, value: nat)

  /** The fields of an 802.1Q tag. */
  datatype Vlan = Vlan(pcp: nat, cfi: bool, vid: nat)

  /** The fields of an 802.2 header. */
  datatype Llc = Llc(dsap: byte, ssap: byte, ctrl: byte)

  datatype Frame = Frame(
    kind: FrameType,
    data: seq<byte>,
    destination: seq<byte>,
    source: seq<byte>,
    etherType: nat,
    qinq: Option<QinQ>,
    vlan: Option<Vlan>,
    llc: Option<Llc>,
    oui: bv32,
    payload: seq<byte>)

  const VLAN := 0x8100
  const IPX := 0x8137

  /** The types that the parser takes for an outer tag. */
  const TAG_TYPES: set<nat> := {0x8100, 0x88a8, 0x9100, 0x9200}

  /** data[i] */
  function ByteAt(data: seq<byte>, i: nat): Result<byte, Exception> {
    if i < |data| then Ok(data[i]) else Err(IndexOutOfRange)
  }

  /** (data[i] << 8) | data[i + 1] */
  function WordAt(data: seq<byte>, i: nat): (r: Result<nat, Exception>)
    ensures r.Ok? ==> r.value < 0x1_0000
  {
    if i + 1 < |data| then Ok(Word(data[i], data[i + 1]) as nat) else Err(IndexOutOfRange)
  }

  /** A copy of `n` bytes from `from` on, into a new array. */
  function Copied(data: seq<byte>, from: nat, n: int): Result<seq<byte>, Exception> {
    if n < 0 then Err(Overflow)
    else if from + n > |data| then Err(Argument)
    else Ok(data[from..from + n])
  }

  function Fields(vlanData: nat): (v: Vlan)
    ensures v.pcp < 8 && v.vid < 4096
    ensures vlanData < 0x1_0000 ==> vlanData == v.pcp * 8192 + (if v.cfi then 4096 else 0) + v.vid
  {
    Vlan(vlanData / 0x2000 % 8, vlanData / 0x1000 % 2 != 0, vlanData % 0x1000)
  }

  /** The organization code as the parser computes it. */
  function Oui(a: byte, b: byte, c: byte): bv32 {
    Shifted(a as bv32, b as bv32, c as bv32)
  }

  function Shifted(a: bv32, b: bv32, c: bv32): bv32 {
    (a << 8) | (b << 4) | c
  }

  predicate SnapSap(sap: byte) {
    sap == 0xaa || sap == 0xab
  }

  /** What the parser finds before the body: tags, type or length, and where the body begins. */
  datatype Head = Head(qinq: Option<QinQ>, vlan: Option<Vlan>, etherType: nat, hdrlen: nat)

  function HeadOf(data: seq<byte>): (r: Result<Head, Exception>)
    ensures r.Ok? ==> 14 <= r.value.hdrlen <= |data|
  {
    if |data| < 12 then Err(Argument)
    else
      var tpid :- WordAt(data, 12);
      if tpid !in TAG_TYPES then Ok(Head(None, None, tpid, 14))
      else
        var value :- WordAt(data, 14);
        var inner :- WordAt(data, 16);
        if inner == VLAN then
          var tci :- WordAt(data, 18);
          var etherType :- WordAt(data, 20);
          Ok(Head(Some(QinQ(tpid, value)), Some(Fields(tci)), etherType, 22))
        else if tpid == VLAN then Ok(Head(None, Some(Fields(value)), inner, 18))
        else Ok(Head(None, None, tpid, 14))
  }

  /** The body of a frame that has a length instead of a type. */
  datatype Body = Body(kind: FrameType, etherType: nat, llc: Option<Llc>, oui: bv32, payload: seq<byte>)

  function BodyOf(data: seq<byte>, from: nat, length: nat): Result<Body, Exception> {
    var first :- ByteAt(data, from);
    if first == 0xff && from + 1 >= |data| then Err(IndexOutOfRange)
    else if first == 0xff && data[from + 1] == 0xff then
      var payload :- Copied(data, from, length);
      Ok(Body(Ethernet_RAW, IPX, None, 0, payload))
    else
      var ssap :- ByteAt(data, from + 1);
      var ctrl :- ByteAt(data, from + 2);
      if SnapSap(first) && SnapSap(ssap) then
        var oui :- ByteAt(data, from + 5);
        var etherType :- WordAt(data, from + 6);
        var payload :- Copied(data, from + 8, length - 8);
        Ok(Body(Ethernet_SNAP, etherType, Some(Llc(first, ssap, ctrl)),
                Oui(data[from + 3], data[from + 4], oui), payload))
      else
        var payload :- Copied(data, from + 3, length - 3);
        Ok(Body(Ethernet_IEEE, length, Some(Llc(first, ssap, ctrl)), 0, payload))
  }

  function Parsed(data: seq<byte>): Result<Frame, Exception> {
    var head :- HeadOf(data);
    var body :- if head.etherType >= 0x0800
      then Ok(Body(Ethernet_II, head.etherType, None, 0, data[head.hdrlen..]))
      else BodyOf(data, head.hdrlen, head.etherType);
    Ok(Frame(body.kind, data, data[..6], data[6..12], body.etherType,
             head.qinq, head.vlan, body.llc, body.oui, body.payload))
  }

  /** The addresses and the tags. */
  method ParseHead(data: seq<byte>) returns (r: Result<Head, Exception>)
    ensures r == HeadOf(data)
  {
    var destination :- Copied(data, 0, 6);
    var source :- Copied(data, 6, 6);
    var etherType :- WordAt(data, 12);
    var hdrlen := 14;
    var hasQinQ, qinqType, qinqValue := false, 0, 0;
    if etherType in TAG_TYPES {
      hasQinQ := true;
      qinqType := etherType;
      qinqValue :- WordAt(data, hdrlen);
      hdrlen := hdrlen + 2;
      etherType :- WordAt(data, hdrlen);
      hdrlen := hdrlen + 2;
    }
    var hasVlan, vlanData := false, 0;
    if etherType == VLAN {
      hasVlan := true;
      vlanData :- WordAt(data, hdrlen);
      hdrlen := hdrlen + 2;
      etherType :- WordAt(data, hdrlen);
      hdrlen := hdrlen + 2;
    } else if hasQinQ && qinqType == VLAN {
      hasVlan := true;
      vlanData := qinqValue;
      hasQinQ, qinqType, qinqValue := false, 0, 0;
    } else if hasQinQ {
      hasQinQ, qinqType, qinqValue := false, 0, 0;
      etherType := Word(data[12], data[13]) as nat;
      hdrlen := 14;
    }
    var vlan := if hasVlan then Some(Fields(vlanData)) else None;
    var qinq := if hasQinQ then Some(QinQ(qinqType, qinqValue)) else None;
    return Ok(Head(qinq, vlan, etherType, hdrlen));
  }

  /** What follows when the frame has a length. */
  method ParseBody(data: seq<byte>, from: nat, length: nat) returns (r: Result<Body, Exception>)
    ensures r == BodyOf(data, from, length)
  {
    var hdrlen, etherType := from, length;
    var payloadlen: int := length;
    var kind, llc, oui: bv32 := Ethernet_RAW, None, 0;
    var first :- ByteAt(data, hdrlen);
    var raw := false;
    if first == 0xff {
      var second :- ByteAt(data, hdrlen + 1);
      raw := second == 0xff;
    }
    if raw {
      etherType := IPX;
    } else {
      kind := Ethernet_IEEE;
      var dsap := first;
      hdrlen := hdrlen + 1;
      var ssap :- ByteAt(data, hdrlen);
      hdrlen := hdrlen + 1;
      var ctrl :- ByteAt(data, hdrlen);
      hdrlen := hdrlen + 1;
      llc := Some(Llc(dsap, ssap, ctrl));
      payloadlen := payloadlen - 3;
      if SnapSap(dsap) && SnapSap(ssap) {
        kind := Ethernet_SNAP;
        var a :- ByteAt(data, hdrlen);
        var b :- ByteAt(data, hdrlen + 1);
        var c :- ByteAt(data, hdrlen + 2);
        oui := Oui(a, b, c);
        payloadlen := payloadlen - 3;
        hdrlen := hdrlen + 3;
        etherType :- WordAt(data, hdrlen);
        payloadlen := payloadlen - 2;
        hdrlen := hdrlen + 2;
      }
    }
    var payload :- Copied(data, hdrlen, payloadlen);
    r := Ok(Body(kind, etherType, llc, oui, payload));
  }

  /** The constructor. Every frame it takes has its addresses in the first 12 bytes. */
  method Parse(data: seq<byte>) returns (r: Result<Frame, Exception>)
    ensures r == Parsed(data)
    ensures r.Ok? ==>
      && |data| >= 14
      && r.value.data == data && r.value.destination == data[..6] && r.value.source == data[6..12]
  {
    var head :- ParseHead(data);
    var body := Body(Ethernet_II, head.etherType, None, 0, data[head.hdrlen..]);
    if head.etherType < 0x0800 {
      body :- ParseBody(data, head.hdrlen, head.etherType);
    }
    r := Ok(Frame(body.kind, data, data[..6], data[6..12], body.etherType,
                  head.qinq, head.vlan, body.llc, body.oui, body.payload));
  }

  predicate VlanOk(v: Vlan) {
    v.pcp < 8 && v.vid < 0x1000
  }

  /** PCP << 13 | CFI << 12 | VID */
  function Tci(v: Vlan): uint16
    requires VlanOk(v)
  {
    (v.pcp * 0x2000 + (if v.cfi then 0x1000 else 0) + v.vid) as uint16
  }

  /** The tag control information and its fields determine each other. */
  lemma FieldsOfTci(v: Vlan)
    requires VlanOk(v)
    ensures Fields(Tci(v) as nat) == v
  {
    var cfi := if v.cfi then 1 else 0;
    assert Tci(v) as nat / 0x2000 == v.pcp;
    assert Tci(v) as nat / 0x1000 == v.pcp * 2 + cfi;
  }

  lemma TciOfFields(tci: uint16)
    ensures VlanOk(Fields(tci as nat)) && Tci(Fields(tci as nat)) == tci
  {
  }

  function EthernetII(destination: seq<byte>, source: seq<byte>, tags: seq<byte>, etherType: uint16,
                      payload: seq<byte>): seq<byte> {
    destination + source + tags + Be16(etherType) + payload
  }

  /** The parser recovers the frame that was built. */
  predicate Recovered(destination: seq<byte>, source: seq<byte>, tags: seq<byte>, etherType: uint16,
                      payload: seq<byte>, qinq: Option<QinQ>, vlan: Option<Vlan>) {
    var data := EthernetII(destination, source, tags, etherType, payload);
    Parsed(data) == Ok(Frame(Ethernet_II, data, destination, source, etherType as nat, qinq, vlan, None, 0, payload))
  }

  lemma BodyKind(data: seq<byte>, from: nat, length: nat)
    ensures BodyOf(data, from, length).Ok? ==> BodyOf(data, from, length).value.kind != Ethernet_II
  {
  }

  /** It does so exactly when it gets the head right. */
  lemma RecoveredByHead(destination: seq<byte>, source: seq<byte>, tags: seq<byte>, etherType: uint16,
                        payload: seq<byte>, qinq: Option<QinQ>, vlan: Option<Vlan>)
    requires |destination| == 6 && |source| == 6
    ensures Recovered(destination, source, tags, etherType, payload, qinq, vlan) <==>
      && etherType >= 0x0800
      && HeadOf(EthernetII(destination, source, tags, etherType, payload))
         == Ok(Head(qinq, vlan, etherType as nat, 14 + |tags|))
  {
    hide Oui, HeadOf, BodyOf, Be16;
    var data := EthernetII(destination, source, tags, etherType, payload);
    if HeadOf(data).Ok? {
      BodyKind(data, HeadOf(data).value.hdrlen, HeadOf(data).value.etherType);
    }
    assert data[..6] == destination && data[6..12] == source && data[14 + |tags|..] == payload;
  }

  lemma WordAtIs(before: seq<byte>, w: uint16, after: seq<byte>)
    ensures WordAt(before + Be16(w) + after, |before|) == Ok(w as nat)
  {
    WordOfBe16(w);
    var all := before + Be16(w) + after;
    assert all[|before|] == Be16(w)[0] && all[|before| + 1] == Be16(w)[1];
  }

  lemma TagsAt(before: seq<byte>, tpid: uint16, tci: uint16, next: uint16, after: seq<byte>)
    ensures var data := before + Be16(tpid) + Be16(tci) + Be16(next) + after;
      && WordAt(data, |before|) == Ok(tpid as nat)
      && WordAt(data, |before| + 2) == Ok(tci as nat)
      && WordAt(data, |before| + 4) == Ok(next as nat)
  {
    hide WordAt, Be16;
    var data := before + Be16(tpid) + Be16(tci) + Be16(next) + after;
    assert data == before + Be16(tpid) + (Be16(tci) + Be16(next) + after);
    WordAtIs(before, tpid, Be16(tci) + Be16(next) + after);
    assert data == before + Be16(tpid) + Be16(tci) + (Be16(next) + after);
    WordAtIs(before + Be16(tpid), tci, Be16(next) + after);
    WordAtIs(before + Be16(tpid) + Be16(tci), next, after);
  }

  /**
   * Without tags the rest begins at byte 14, whatever follows the addresses, a type or a length,
   * exactly when that is not VLAN and no other tag type that seems to be followed by VLAN.
   */
  lemma UntaggedHead(destination: seq<byte>, source: seq<byte>, next: uint16, rest: seq<byte>)
    requires |destination| == 6 && |source| == 6
    ensures HeadOf(EthernetII(destination, source, [], next, rest)) == Ok(Head(None, None, next as nat, 14)) <==>
      && next != 0x8100
      && (next in {0x88a8, 0x9100, 0x9200} ==> |rest| >= 4 && Word(rest[2], rest[3]) != 0x8100)
  {
    var data := EthernetII(destination, source, [], next, rest);
    assert data == destination + source + Be16(next) + rest;
    WordAtIs(destination + source, next, rest);
    if |rest| >= 4 {
      assert data[16] == rest[2] && data[17] == rest[3];
    }
  }

  /**
   * An untagged Ethernet II frame comes back as it was built exactly when its type is not a
   * length and not VLAN, and, when it is one of the other tag types, the payload has at least
   * 4 bytes and does not have the VLAN type in the third and fourth.
   */
  lemma UntaggedParses(destination: seq<byte>, source: seq<byte>, etherType: uint16, payload: seq<byte>)
    requires |destination| == 6 && |source| == 6
    ensures Recovered(destination, source, [], etherType, payload, None, None) <==>
      && etherType >= 0x0800 && etherType != 0x8100
      && (etherType in {0x88a8, 0x9100, 0x9200} ==> |payload| >= 4 && Word(payload[2], payload[3]) != 0x8100)
  {
    hide Recovered, HeadOf, EthernetII, Word;
    RecoveredByHead(destination, source, [], etherType, payload, None, None);
    UntaggedHead(destination, source, etherType, payload);
  }

  /**
   * One 802.1Q tag gives its fields, whatever follows, a type or a length: the rest begins at
   * byte 18, exactly when what follows is not VLAN again.
   */
  lemma SingleTaggedHead(destination: seq<byte>, source: seq<byte>, v: Vlan, next: uint16, rest: seq<byte>)
    requires |destination| == 6 && |source| == 6 && VlanOk(v)
    ensures var data := EthernetII(destination, source, Be16(0x8100) + Be16(Tci(v)), next, rest);
      HeadOf(data) == Ok(Head(None, Some(v), next as nat, 18)) <==> next != 0x8100
  {
    hide WordAt, Tci, Fields, Be16;
    FieldsOfTci(v);
    TagsAt(destination + source, 0x8100, Tci(v), next, rest);
    assert EthernetII(destination, source, Be16(0x8100) + Be16(Tci(v)), next, rest)
        == destination + source + Be16(0x8100) + Be16(Tci(v)) + Be16(next) + rest;
  }

  /** A frame with one 802.1Q tag comes back exactly when its type is not a length and not VLAN again. */
  lemma SingleTaggedParses(destination: seq<byte>, source: seq<byte>, v: Vlan, etherType: uint16, payload: seq<byte>)
    requires |destination| == 6 && |source| == 6 && VlanOk(v)
    ensures Recovered(destination, source, Be16(0x8100) + Be16(Tci(v)), etherType, payload, None, Some(v)) <==>
      etherType >= 0x0800 && etherType != 0x8100
  {
    hide Recovered, WordAt, Tci, Fields, Be16, HeadOf, EthernetII;
    RecoveredByHead(destination, source, Be16(0x8100) + Be16(Tci(v)), etherType, payload, None, Some(v));
    SingleTaggedHead(destination, source, v, etherType, payload);
  }

  /** Two tags likewise: the rest begins at byte 22, exactly when the outer type is a tag type. */
  lemma DoubleTaggedHead(destination: seq<byte>, source: seq<byte>, tpid: uint16, value: uint16, v: Vlan,
                         next: uint16, rest: seq<byte>)
    requires |destination| == 6 && |source| == 6 && VlanOk(v)
    ensures var tags := Be16(tpid) + Be16(value) + Be16(0x8100) + Be16(Tci(v));
      var head := Head(Some(QinQ(tpid as nat, value as nat)), Some(v), next as nat, 22);
      HeadOf(EthernetII(destination, source, tags, next, rest)) == Ok(head) <==>
      tpid in {0x8100, 0x88a8, 0x9100, 0x9200}
  {
    hide WordAt, Tci, Fields, Be16;
    FieldsOfTci(v);
    var tags := Be16(tpid) + Be16(value) + Be16(0x8100) + Be16(Tci(v));
    var front := destination + source;
    TagsAt(front, tpid, value, 0x8100, Be16(Tci(v)) + Be16(next) + rest);
    TagsAt(front + Be16(tpid) + Be16(value), 0x8100, Tci(v), next, rest);
    var data := EthernetII(destination, source, tags, next, rest);
    assert data == front + Be16(tpid) + Be16(value) + Be16(0x8100) + (Be16(Tci(v)) + Be16(next) + rest);
    assert data == front + Be16(tpid) + Be16(value) + Be16(0x8100) + Be16(Tci(v)) + Be16(next) + rest;
  }

  /** A doubly tagged frame comes back exactly when its outer type is a tag type and its own is not a length. */
  lemma DoubleTaggedParses(destination: seq<byte>, source: seq<byte>, tpid: uint16, value: uint16, v: Vlan,
                           etherType: uint16, payload: seq<byte>)
    requires |destination| == 6 && |source| == 6 && VlanOk(v)
    ensures
      Recovered(destination, source, Be16(tpid) + Be16(value) + Be16(0x8100) + Be16(Tci(v)), etherType, payload,
                Some(QinQ(tpid as nat, value as nat)), Some(v)) <==>
      tpid in {0x8100, 0x88a8, 0x9100, 0x9200} && etherType >= 0x0800
  {
    hide Recovered, WordAt, Tci, Fields, Be16, HeadOf, EthernetII;
    var tags := Be16(tpid) + Be16(value) + Be16(0x8100) + Be16(Tci(v));
    RecoveredByHead(destination, source, tags, etherType, payload, Some(QinQ(tpid as nat, value as nat)), Some(v));
    DoubleTaggedHead(destination, source, tpid, value, v, etherType, payload);
  }

  /** What a frame with a length is, by the first two bytes of its body. */
  function KindBy(first: byte, second: byte): FrameType {
    if first == 0xff && second == 0xff then Ethernet_RAW
    else if first in {0xaa, 0xab} && second in {0xaa, 0xab} then Ethernet_SNAP
    else Ethernet_IEEE
  }

  /** Bytes of header in the body. */
  function HeaderSize(kind: FrameType): nat {
    match kind
    case Ethernet_SNAP => 8
    case Ethernet_IEEE => 3
    case _ => 0
  }

  lemma BodyRule(data: seq<byte>, from: nat, length: nat)
    ensures |data| < from + 2 ==> BodyOf(data, from, length) == Err(IndexOutOfRange)
    ensures |data| >= from + 2 ==>
      var header := HeaderSize(KindBy(data[from], data[from + 1]));
      var body := BodyOf(data, from, length);
      && (body == Err(IndexOutOfRange) <==> |data| < from + header)
      && (body == Err(Overflow) <==> from + header <= |data| && length < header)
      && (body == Err(Argument) <==> from + header <= |data| < from + length && header <= length)
      && (body.Ok? <==> header <= length && from + length <= |data|)
    ensures BodyOf(data, from, length).Ok? ==>
      var b := BodyOf(data, from, length).value;
      && b.kind == KindBy(data[from], data[from + 1])
      && b.payload == data[from + HeaderSize(b.kind)..from + length]
      && (b.kind == Ethernet_RAW ==> b.llc == None && b.etherType == 0x8137)
      && (b.kind != Ethernet_RAW ==> b.llc == Some(Llc(data[from], data[from + 1], data[from + 2])))
      && (b.kind == Ethernet_IEEE ==> b.etherType == length)
      && (b.kind == Ethernet_SNAP ==>
            b.etherType == Word(data[from + 6], data[from + 7]) as nat
            && b.oui == Oui(data[from + 3], data[from + 4], data[from + 5]))
      && (b.kind != Ethernet_SNAP ==> b.oui == 0)
  {
    hide Oui, Word;
  }

  /**
   * A frame with a length is taken exactly when it holds that many bytes and its header fits
   * them, and its payload is exactly the rest of these bytes; whatever padding follows is cut
   * off. The header is 8 bytes for SNAP, 3 for any other 802.2 frame, and none for raw 802.3,
   * which is taken for IPX (0x8137). Each exception has its own condition.
   */
  lemma LengthDecides(data: seq<byte>, head: Head)
    requires HeadOf(data) == Ok(head) && head.etherType < 0x0800 && |data| >= head.hdrlen + 2
    ensures var body := data[head.hdrlen..];
      var kind := KindBy(body[0], body[1]);
      var header := HeaderSize(kind);
      && (Parsed(data) == Err(IndexOutOfRange) <==> |body| < header)
      && (Parsed(data) == Err(Overflow) <==> head.etherType < header <= |body|)
      && (Parsed(data) == Err(Argument) <==> header <= head.etherType && header <= |body| < head.etherType)
      && (Parsed(data).Ok? <==> header <= head.etherType <= |body|)
      && (Parsed(data).Ok? ==>
            var f := Parsed(data).value;
            && f.data == data && f.destination == data[..6] && f.source == data[6..12]
            && f.kind == kind && f.payload == body[header..head.etherType]
            && f.vlan == head.vlan && f.qinq == head.qinq
            && f.llc == (if kind == Ethernet_RAW then None else Some(Llc(body[0], body[1], body[2])))
            && f.etherType == (match kind
                               case Ethernet_RAW => 0x8137
                               case Ethernet_SNAP => Word(body[6], body[7]) as nat
                               case _ => head.etherType)
            && f.oui == (if kind == Ethernet_SNAP then Oui(body[3], body[4], body[5]) else 0))
  {
    hide HeadOf, BodyOf, Word, Oui, Parsed;
    var h := head.hdrlen;
    BodyRule(data, h, head.etherType);
    ParsedByBody(data, head);
    var header := HeaderSize(KindBy(data[h], data[h + 1]));
    assert forall i :: 0 <= i < |data| - h ==> data[h..][i] == data[h + i];
    if header <= head.etherType <= |data| - h {
      assert data[h..][header..head.etherType] == data[h + header..h + head.etherType];
    }
  }

  lemma ParsedByBody(data: seq<byte>, head: Head)
    requires HeadOf(data) == Ok(head) && head.etherType < 0x0800
    ensures Parsed(data) ==
      match BodyOf(data, head.hdrlen, head.etherType)
      case Err(e) => Err(e)
      case Ok(b) =>
        Ok(Frame(b.kind, data, data[..6], data[6..12], b.etherType, head.qinq, head.vlan, b.llc, b.oui, b.payload))
  {
    hide HeadOf, BodyOf;
  }

  /** Without two bytes of body such a frame is refused. */
  lemma TooShortForLength(data: seq<byte>, head: Head)
    requires HeadOf(data) == Ok(head) && head.etherType < 0x0800 && |data| < head.hdrlen + 2
    ensures Parsed(data) == Err(IndexOutOfRange)
  {
    hide HeadOf, BodyOf, Parsed;
    BodyRule(data, head.hdrlen, head.etherType);
    ParsedByBody(data, head);
  }

  /** Before the body, a frame is refused exactly when it is shorter than its addresses, type and tags. */
  lemma HeadRefusedExactlyWhen(data: seq<byte>)
    ensures HeadOf(data) == Err(Argument) <==> |data| < 12
    ensures HeadOf(data) == Err(IndexOutOfRange) <==>
      || 12 <= |data| < 14
      || (14 <= |data| < 22
          && Word(data[12], data[13]) in {0x8100, 0x88a8, 0x9100, 0x9200}
          && (|data| < 18 || Word(data[16], data[17]) == 0x8100))
    ensures HeadOf(data) != Err(Overflow)
  {
    hide Word;
  }

  lemma HeadStays(data: seq<byte>, padding: seq<byte>)
    requires HeadOf(data).Ok?
    ensures HeadOf(data + padding) == HeadOf(data)
  {
    hide Fields, Word;
  }

  lemma BodyStays(data: seq<byte>, padding: seq<byte>, from: nat, length: nat)
    requires BodyOf(data, from, length).Ok?
    ensures BodyOf(data + padding, from, length) == BodyOf(data, from, length)
  {
    hide Oui, Word;
    assert forall i, j :: 0 <= i <= j <= |data| ==> (data + padding)[i..j] == data[i..j];
  }

  /** So padding changes nothing but the copy of the data, except in an Ethernet II frame, whose payload it joins. */
  lemma PaddingJoinsNoPayload(data: seq<byte>, padding: seq<byte>)
    requires Parsed(data).Ok?
    ensures var f := Parsed(data).value;
      Parsed(data + padding) == Ok(
        if f.kind == Ethernet_II then f.(data := data + padding, payload := f.payload + padding)
        else f.(data := data + padding))
  {
    hide HeadOf, BodyOf;
    HeadStays(data, padding);
    var all := data + padding;
    var head := HeadOf(data).value;
    assert all[..6] == data[..6] && all[6..12] == data[6..12];
    if head.etherType < 0x0800 {
      BodyKind(data, head.hdrlen, head.etherType);
      BodyStays(data, padding, head.hdrlen, head.etherType);
    } else {
      assert all[head.hdrlen..] == data[head.hdrlen..] + padding;
    }
  }

  /** The three bytes of an organization code, as the standard puts them together. */
  function StandardOui(a: byte, b: byte, c: byte): bv32 {
    ((a as bv32) << 16) | ((b as bv32) << 8) | (c as bv32)
  }

  lemma ShiftsAgree(a: bv32, b: bv32, c: bv32)
    requires a < 0x100 && b < 0x100 && c < 0x100
    ensures Shifted(a, b, c) == (a << 16) | (b << 8) | c <==> a == 0 && b == 0
  {
  }

  lemma SmallBits(a: byte)
    ensures a as bv32 < 0x100
    ensures a as bv32 == 0 <==> a == 0
  {
  }

  /** The parser's organization code is the standard's exactly when its first two bytes are zero. */
  lemma OuiRightExactlyWhen(a: byte, b: byte, c: byte)
    ensures Oui(a, b, c) == StandardOui(a, b, c) <==> a == 0 && b == 0
  {
    hide Shifted;
    SmallBits(a);
    SmallBits(b);
    SmallBits(c);
    ShiftsAgree(a as bv32, b as bv32, c as bv32);
  }

  /** The low half of a byte. */
  function Low(x: bv32): bv32 {
    x & 0xf
  }

  /** The high half of a byte, or the half byte `n` bits up in a longer word. */
  function High(x: bv32, n: nat): bv32
    requires n < 32
  {
    (x >> n) & 0xf
  }

  /** Two half bytes laid over each other. */
  function Overlaid(x: bv32, y: bv32): bv32 {
    x | y
  }

  /** The word of four half bytes. */
  function FromHalves(h3: bv32, h2: bv32, h1: bv32, h0: bv32): bv32 {
    (h3 << 12) | (h2 << 8) | (h1 << 4) | h0
  }

  lemma HalvesOfWord(x: bv32)
    requires x < 0x1_0000
    ensures FromHalves(High(x, 12), High(x, 8), High(x, 4), Low(x)) == x
  {
  }

  /** Which half bytes of the three bytes the shifts bring together. */
  lemma HalvesOfShifted(a: bv32, b: bv32, c: bv32)
    requires a < 0x100 && b < 0x100 && c < 0x100
    ensures var x := Shifted(a, b, c);
      && x < 0x1_0000 && High(x, 12) == High(a, 4) && Low(x) == Low(c)
      && High(x, 8) == Overlaid(Low(a), High(b, 4)) && High(x, 4) == Overlaid(Low(b), High(c, 4))
  {
  }

  /** What the shifts leave of three bytes agrees: the outer half bytes, and two pairs that are laid over each other. */
  predicate SameHalves(a: bv32, b: bv32, c: bv32, a': bv32, b': bv32, c': bv32) {
    && High(a, 4) == High(a', 4)
    && Overlaid(Low(a), High(b, 4)) == Overlaid(Low(a'), High(b', 4))
    && Overlaid(Low(b), High(c, 4)) == Overlaid(Low(b'), High(c', 4))
    && Low(c) == Low(c')
  }

  lemma ShiftsCollide(a: bv32, b: bv32, c: bv32, a': bv32, b': bv32, c': bv32)
    requires a < 0x100 && b < 0x100 && c < 0x100 && a' < 0x100 && b' < 0x100 && c' < 0x100
    ensures Shifted(a, b, c) == Shifted(a', b', c') <==> SameHalves(a, b, c, a', b', c')
  {
    hide Shifted, Low, High, Overlaid, FromHalves;
    HalvesOfShifted(a, b, c);
    HalvesOfShifted(a', b', c');
    HalvesOfWord(Shifted(a, b, c));
    HalvesOfWord(Shifted(a', b', c'));
  }

  /**
   * Two organization codes cannot be told apart exactly when they agree in the first and the
   * last half byte, and in the two pairs of half bytes in between when each is combined.
   */
  lemma OuiCollidesExactlyWhen(a: byte, b: byte, c: byte, a': byte, b': byte, c': byte)
    ensures Oui(a, b, c) == Oui(a', b', c') <==>
      SameHalves(a as bv32, b as bv32, c as bv32, a' as bv32, b' as bv32, c' as bv32)
  {
    hide Shifted, SameHalves;
    SmallBits(a);
    SmallBits(b);
    SmallBits(c);
    SmallBits(a');
    SmallBits(b');
    SmallBits(c');
    ShiftsCollide(a as bv32, b as bv32, c as bv32, a' as bv32, b' as bv32, c' as bv32);
  }

  /** Such codes are, for example, 00-10-00 and 01-00-00. */
  lemma OuiCollides()
    ensures Oui(0x00, 0x10, 0x00) == Oui(0x01, 0x00, 0x00)
    ensures StandardOui(0x00, 0x10, 0x00) != StandardOui(0x01, 0x00, 0x00)
  {
    OuiCollidesExactlyWhen(0x00, 0x10, 0x00, 0x01, 0x00, 0x00);
  }
}
