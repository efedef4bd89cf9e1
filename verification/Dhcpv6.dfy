/** The DHCPv6 wire format of internal/dhcpv6: options, the two nested identity
    association options, packets and relayed replies (sections 8, 9, 21.1,
    21.4, 21.6 and 21.10 of RFC 8415). */
module Dhcpv6 {
  import opened Bytes
  import opened Wrappers

  type uint16 = n: int | 0 <= n < 0x1_0000

  const RELAY_MESSAGE: uint16 := 9
  const INTERFACE_ID: uint16 := 18
  const RELAY_FORWARD: byte := 12
  const RELAY_REPLY: byte := 13

  // ---------- options ----------

  datatype Opt = Opt(code: uint16, value: bytes)

  type Options = seq<Opt>

  /** An option on the wire: code, length, value. */
  function Wire(o: Opt): (b: bytes)
    requires |o.value| < U16_LIMIT
    ensures |b| == 4 + |o.value|
  {
    U16(o.code) + U16(|o.value|) + o.value
  }

  function EncodeOptions(os: Options): Option<bytes>
  {
    if os == [] then Some([])
    else if |os[0].value| > 65535 then None
    else match EncodeOptions(os[1..])
      case None => None
      case Some(rest) => Some(Wire(os[0]) + rest)
  }

  function DecodeOptions(raw: bytes): Option<Options>
    decreases |raw|
  {
    if raw == [] then Some([])
    else if |raw| < 4 then None
    else
      var length := GetU16(raw[2..]);
      if |raw| - 4 < length then None
      else match DecodeOptions(raw[4 + length..])
        case None => None
        case Some(rest) => Some([Opt(GetU16(raw), raw[4..4 + length])] + rest)
  }

  /** Options whose lengths fit their length fields. */
  predicate Encodable(os: Options)
  {
    forall i :: 0 <= i < |os| ==> |os[i].value| <= 65535
  }

  lemma {:induction false} EncodableExact(os: Options)
    ensures EncodeOptions(os).Some? <==> Encodable(os)
  {
    if os != [] {
      EncodableExact(os[1..]);
      assert Encodable(os) ==> forall i :: 0 <= i < |os[1..]| ==> os[1..][i] == os[i + 1];
      if !Encodable(os) {
        var i :| 0 <= i < |os| && |os[i].value| > 65535;
        assert i > 0 ==> os[1..][i - 1] == os[i];
      }
    }
  }

  lemma DecodeWire(o: Opt, rest: bytes)
    requires |o.value| < U16_LIMIT
    ensures DecodeOptions(Wire(o) + rest)
         == match DecodeOptions(rest) case None => None case Some(os) => Some([o] + os)
  {
    var raw := Wire(o) + rest;
    assert raw == U16(o.code) + (U16(|o.value|) + o.value + rest);
    U16RoundTrip(o.code, U16(|o.value|) + o.value + rest);
    assert raw[2..] == U16(|o.value|) + (o.value + rest);
    U16RoundTrip(|o.value|, o.value + rest);
    assert raw[4..4 + |o.value|] == o.value;
    assert raw[4 + |o.value|..] == rest;
  }

  /** Decoding what was encoded gives the options back, in order. */
  lemma {:induction false} OptionsRoundTrip(os: Options)
    requires Encodable(os)
    ensures EncodeOptions(os).Some? && DecodeOptions(EncodeOptions(os).value) == Some(os)
  {
    EncodableExact(os);
    if os != [] {
      OptionsRoundTrip(os[1..]);
      DecodeWire(os[0], EncodeOptions(os[1..]).value);
      assert [os[0]] + os[1..] == os;
    }
  }

  lemma WireOfRead(raw: bytes)
    requires |raw| >= 4 && |raw| - 4 >= GetU16(raw[2..])
    ensures var length := GetU16(raw[2..]);
            Wire(Opt(GetU16(raw), raw[4..4 + length])) + raw[4 + length..] == raw
  {
    var length := GetU16(raw[2..]);
    U16Reverse(raw);
    U16Reverse(raw[2..]);
    assert raw[2..][..2] == raw[2..4];
    assert raw == raw[..2] + raw[2..4] + raw[4..4 + length] + raw[4 + length..];
  }

  /** Encoding what was decoded gives the same bytes: nothing accepted is lost. */
  lemma {:induction false} OptionsReverse(raw: bytes)
    requires DecodeOptions(raw).Some?
    ensures EncodeOptions(DecodeOptions(raw).value) == Some(raw)
    decreases |raw|
  {
    if raw != [] {
      var length := GetU16(raw[2..]);
      OptionsReverse(raw[4 + length..]);
      WireOfRead(raw);
      var os := DecodeOptions(raw).value;
      assert os[1..] == DecodeOptions(raw[4 + length..]).value;
    }
  }

  /** The loop of DecodeOptions: options out, input consumed. */
  method Decode(input: bytes) returns (r: Option<Options>)
    ensures r == DecodeOptions(input)
  {
    var raw, out: Options := input, [];
    BeforeEnds([], DecodeOptions(input));
    while |raw| > 0
      invariant DecodeOptions(input) == Before(out, DecodeOptions(raw))
      decreases |raw|
    {
      if |raw| < 4 {
        return None;
      }
      var code, length := GetU16(raw[0..2]), GetU16(raw[2..4]);
      assert raw[2..][..2] == raw[2..4][..2] && raw[..2] == raw[0..2][..2];
      ghost var whole := raw;
      raw := raw[4..];
      if |raw| < length {
        return None;
      }
      var value := raw[..length];
      raw := raw[length..];
      assert value == whole[4..4 + length] && raw == whole[4 + length..];
      BeforeTwo(out, [Opt(code, value)], DecodeOptions(raw));
      out := out + [Opt(code, value)];
    }
    BeforeEnds(out, None);
    return Some(out);
  }

  function Before<T>(front: seq<T>, later: Option<seq<T>>): Option<seq<T>>
  {
    if later == None then None else Some(front + later.value)
  }

  lemma BeforeTwo<T>(front: seq<T>, next: seq<T>, later: Option<seq<T>>)
    ensures Before(front, Before(next, later)) == Before(front + next, later)
  {
    if later.Some? {
      assert front + (next + later.value) == front + next + later.value;
    }
  }

  lemma BeforeEnds<T>(front: seq<T>, later: Option<seq<T>>)
    ensures Before([], later) == later && Before(front, Some([])) == Some(front)
  {
    assert later.Some? ==> [] + later.value == later.value;
    assert front + [] == front;
  }

  /** The loop of Options.Encode. */
  method Encode(os: Options) returns (r: Option<bytes>)
    ensures r == EncodeOptions(os)
  {
    var out: bytes := [];
    assert os[0..] == os;
    BeforeEnds([], EncodeOptions(os));
    for i := 0 to |os|
      invariant EncodeOptions(os) == Before(out, EncodeOptions(os[i..]))
    {
      assert os[i..][0] == os[i] && os[i..][1..] == os[i + 1..];
      if |os[i].value| > 65535 {
        return None;
      }
      BeforeTwo(out, Wire(os[i]), EncodeOptions(os[i + 1..]));
      var buf := U16(os[i].code) + U16(|os[i].value|);
      assert out + buf + os[i].value == out + Wire(os[i]);
      out := out + buf + os[i].value;
    }
    BeforeEnds(out, None);
    return Some(out);
  }

  // ---------- looking up and changing options ----------

  function Get(os: Options, code: uint16): Option<bytes>
  {
    if os == [] then None else if os[0].code == code then Some(os[0].value) else Get(os[1..], code)
  }

  function Without(os: Options, code: uint16): Options
  {
    if os == [] then []
    else if os[0].code != code then [os[0]] + Without(os[1..], code)
    else Without(os[1..], code)
  }

  function With(os: Options, code: uint16, value: bytes): Options
  {
    Without(os, code) + [Opt(code, value)]
  }

  lemma {:induction false} GetAppend(os: Options, o: Opt, code: uint16)
    ensures Get(os + [o], code)
            == if Get(os, code).Some? then Get(os, code) else if o.code == code then Some(o.value) else None
  {
    if os != [] {
      assert (os + [o])[1..] == os[1..] + [o];
      GetAppend(os[1..], o, code);
    }
  }

  lemma {:induction false} GetWithout(os: Options, code: uint16, other: uint16)
    ensures Get(Without(os, code), other) == if other == code then None else Get(os, other)
  {
    if os != [] {
      GetWithout(os[1..], code, other);
      if os[0].code != code {
        assert Without(os, code)[1..] == Without(os[1..], code);
      }
    }
  }

  /** Setting an option replaces all of that code and leaves the others. */
  lemma SetThenGet(os: Options, code: uint16, value: bytes, other: uint16)
    ensures Get(With(os, code, value), other) == if other == code then Some(value) else Get(os, other)
  {
    GetWithout(os, code, other);
    GetAppend(Without(os, code), Opt(code, value), other);
  }

  class OptionList {
    var items: Options

    constructor ()
      ensures items == []
    {
      items := [];
    }

    method Set(code: uint16, value: bytes)
      modifies this
      ensures items == With(old(items), code, value)
    {
      var filtered: Options := [];
      assert items[0..] == items;
      for i := 0 to |items|
        invariant items == old(items)
        invariant Without(items, code) == filtered + Without(items[i..], code)
      {
        assert items[i..][0] == items[i] && items[i..][1..] == items[i + 1..];
        if items[i].code != code {
          assert filtered + ([items[i]] + Without(items[i + 1..], code))
                 == filtered + [items[i]] + Without(items[i + 1..], code);
          filtered := filtered + [items[i]];
        }
      }
      items := filtered + [Opt(code, value)];
    }

    method Add(code: uint16, value: bytes)
      modifies this
      ensures items == old(items) + [Opt(code, value)]
    {
      items := items + [Opt(code, value)];
    }
  }

  // ---------- IA_NA and IAADDR ----------

  datatype Iana = Iana(iaid: uint32, t1: uint32, t2: uint32, options: Options)

  /** Options that do not encode are dropped without an error. */
  function EncodedOrNothing(os: Options): bytes
  {
    match EncodeOptions(os) case None => [] case Some(b) => b
  }

  function EncodeIana(i: Iana): bytes
  {
    U32(i.iaid) + U32(i.t1) + U32(i.t2) + EncodedOrNothing(i.options)
  }

  function DecodeIana(raw: bytes): Option<Iana>
  {
    if |raw| < 12 then None
    else match DecodeOptions(raw[12..])
      case None => None
      case Some(os) => Some(Iana(GetU32(raw), GetU32(raw[4..]), GetU32(raw[8..]), os))
  }

  lemma NothingDecodes(os: Options)
    ensures DecodeOptions(EncodedOrNothing(os)) == Some(if Encodable(os) then os else [])
  {
    EncodableExact(os);
    if Encodable(os) {
      OptionsRoundTrip(os);
    }
  }

  /** An identity association comes back exactly when its options encode. */
  lemma IanaRoundTrip(i: Iana)
    ensures DecodeIana(EncodeIana(i)) == Some(i) <==> Encodable(i.options)
  {
    var rest := EncodedOrNothing(i.options);
    var raw := EncodeIana(i);
    assert raw == U32(i.iaid) + (U32(i.t1) + U32(i.t2) + rest);
    U32RoundTrip(i.iaid, U32(i.t1) + U32(i.t2) + rest);
    assert raw[4..] == U32(i.t1) + (U32(i.t2) + rest);
    U32RoundTrip(i.t1, U32(i.t2) + rest);
    assert raw[8..] == U32(i.t2) + rest;
    U32RoundTrip(i.t2, rest);
    assert raw[12..] == rest;
    NothingDecodes(i.options);
  }

  lemma IanaReverse(raw: bytes)
    requires DecodeIana(raw).Some?
    ensures EncodeIana(DecodeIana(raw).value) == raw
  {
    OptionsReverse(raw[12..]);
    U32Reverse(raw);
    U32Reverse(raw[4..]);
    U32Reverse(raw[8..]);
    assert raw[4..][..4] == raw[4..8] && raw[8..][..4] == raw[8..12];
    CutThree(raw, 4, 8, 12);
  }

  /** net.IP.To16: IPv4 addresses in their mapped form; None for other lengths. */
  function To16(ip: bytes): (r: Option<bytes>)
    ensures r.Some? ==> |r.value| == 16
  {
    if |ip| == 16 then Some(ip)
    else if |ip| == 4 then Some(Zeros(10) + [0xFF, 0xFF] + ip)
    else None
  }

  function Zeros(n: nat): (z: bytes)
    ensures |z| == n
  {
    seq(n, _ => 0)
  }

  /** copyIPv6, and the copy in IAAddress.Encode. */
  function Sixteen(ip: bytes): (b: bytes)
    ensures |b| == 16
    ensures |ip| == 16 ==> b == ip
  {
    match To16(ip) case None => Zeros(16) case Some(v6) => v6
  }

  datatype IaAddress = IaAddress(address: bytes, preferred: uint32, valid: uint32, options: Options)

  function EncodeIaAddress(i: IaAddress): bytes
  {
    Sixteen(i.address) + U32(i.preferred) + U32(i.valid) + EncodedOrNothing(i.options)
  }

  function DecodeIaAddress(raw: bytes): Option<IaAddress>
  {
    if |raw| < 24 then None
    else match DecodeOptions(raw[24..])
      case None => None
      case Some(os) => Some(IaAddress(raw[..16], GetU32(raw[16..]), GetU32(raw[20..]), os))
  }

  /** An address comes back exactly when it is 16 bytes long and its options encode. */
  lemma IaAddressRoundTrip(i: IaAddress)
    ensures DecodeIaAddress(EncodeIaAddress(i)) == Some(i) <==> |i.address| == 16 && Encodable(i.options)
  {
    var rest := EncodedOrNothing(i.options);
    var raw := EncodeIaAddress(i);
    assert raw[..16] == Sixteen(i.address);
    assert raw[16..] == U32(i.preferred) + (U32(i.valid) + rest);
    U32RoundTrip(i.preferred, U32(i.valid) + rest);
    assert raw[20..] == U32(i.valid) + rest;
    U32RoundTrip(i.valid, rest);
    assert raw[24..] == rest;
    NothingDecodes(i.options);
  }

  lemma IaAddressReverse(raw: bytes)
    requires DecodeIaAddress(raw).Some?
    ensures EncodeIaAddress(DecodeIaAddress(raw).value) == raw
  {
    OptionsReverse(raw[24..]);
    U32Reverse(raw[16..]);
    U32Reverse(raw[20..]);
    assert raw[16..][..4] == raw[16..20] && raw[20..][..4] == raw[20..24];
    CutThree(raw, 16, 20, 24);
  }

  // ---------- packets ----------

  datatype PacketParts = PacketParts(messageType: byte, transactionId: bytes, hopCount: byte,
                                     linkAddress: bytes, peerAddress: bytes, options: Options)

  /** The transaction id is an array of three bytes. */
  type Packet = p: PacketParts | |p.transactionId| == 3 witness PacketParts(0, [0, 0, 0], 0, [], [], [])

  predicate IsRelay(p: Packet)
  {
    p.messageType == RELAY_FORWARD || p.messageType == RELAY_REPLY
  }

  /** Only the fields of the packet's own format are set. */
  predicate WellFormed(p: Packet)
  {
    if IsRelay(p) then p.transactionId == [0, 0, 0] && |p.linkAddress| == 16 && |p.peerAddress| == 16
    else p.hopCount == 0 && p.linkAddress == [] && p.peerAddress == []
  }

  function DecodePacket(raw: bytes): Option<Packet>
  {
    if |raw| < 4 then None
    else if raw[0] == RELAY_FORWARD || raw[0] == RELAY_REPLY then
      if |raw| < 34 then None
      else match DecodeOptions(raw[34..])
        case None => None
        case Some(os) => Some(PacketParts(raw[0], [0, 0, 0], raw[1], raw[2..18], raw[18..34], os))
    else match DecodeOptions(raw[4..])
      case None => None
      case Some(os) => Some(PacketParts(raw[0], raw[1..4], 0, [], [], os))
  }

  function EncodePacket(p: Packet): Option<bytes>
  {
    match EncodeOptions(p.options)
    case None => None
    case Some(os) =>
      if IsRelay(p) then Some([p.messageType, p.hopCount] + Sixteen(p.linkAddress) + Sixteen(p.peerAddress) + os)
      else Some([p.messageType] + p.transactionId + os)
  }

  lemma RelayForth(p: Packet, os: bytes)
    requires IsRelay(p) && Encodable(p.options) && EncodeOptions(p.options) == Some(os)
    ensures EncodePacket(p).Some?
    ensures DecodePacket(EncodePacket(p).value)
         == Some(PacketParts(p.messageType, [0, 0, 0], p.hopCount, Sixteen(p.linkAddress),
                             Sixteen(p.peerAddress), p.options))
  {
    OptionsRoundTrip(p.options);
    var raw := EncodePacket(p).value;
    assert raw[2..18] == Sixteen(p.linkAddress) && raw[18..34] == Sixteen(p.peerAddress);
    assert raw[34..] == os;
  }

  lemma ClientForth(p: Packet, os: bytes)
    requires !IsRelay(p) && Encodable(p.options) && EncodeOptions(p.options) == Some(os)
    ensures EncodePacket(p).Some?
    ensures DecodePacket(EncodePacket(p).value)
            == Some(PacketParts(p.messageType, p.transactionId, 0, [], [], p.options))
  {
    OptionsRoundTrip(p.options);
    var raw := EncodePacket(p).value;
    assert raw[1..4] == p.transactionId;
    assert raw[4..] == os;
  }

  /** A packet encodes exactly when its options do, and comes back exactly when
      in addition only the fields of its own format are set. */
  lemma PacketRoundTrip(p: Packet)
    ensures EncodePacket(p).Some? <==> Encodable(p.options)
    ensures EncodePacket(p).Some? ==> (DecodePacket(EncodePacket(p).value) == Some(p) <==> WellFormed(p))
  {
    EncodableExact(p.options);
    if EncodePacket(p).Some? {
      if IsRelay(p) {
        RelayForth(p, EncodeOptions(p.options).value);
      } else {
        ClientForth(p, EncodeOptions(p.options).value);
      }
    }
  }

  lemma CutThree(raw: bytes, i: nat, j: nat, k: nat)
    requires i <= j <= k <= |raw|
    ensures raw[..i] + raw[i..j] + raw[j..k] + raw[k..] == raw
  {
  }

  lemma RelayReverse(raw: bytes)
    requires |raw| >= 34 && (raw[0] == RELAY_FORWARD || raw[0] == RELAY_REPLY) && DecodeOptions(raw[34..]).Some?
    ensures var os := DecodeOptions(raw[34..]).value;
            EncodePacket(PacketParts(raw[0], [0, 0, 0], raw[1], raw[2..18], raw[18..34], os)) == Some(raw)
  {
    OptionsReverse(raw[34..]);
    CutThree(raw, 2, 18, 34);
    assert [raw[0], raw[1]] == raw[..2];
  }

  lemma ClientReverse(raw: bytes)
    requires |raw| >= 4 && raw[0] != RELAY_FORWARD && raw[0] != RELAY_REPLY && DecodeOptions(raw[4..]).Some?
    ensures EncodePacket(PacketParts(raw[0], raw[1..4], 0, [], [], DecodeOptions(raw[4..]).value)) == Some(raw)
  {
    OptionsReverse(raw[4..]);
    CutThree(raw, 1, 4, 4);
    assert [raw[0]] == raw[..1] && raw[..1] + raw[1..4] + raw[4..4] == raw[..1] + raw[1..4];
  }

  /** Encoding an accepted packet gives the bytes it came in. */
  lemma PacketReverse(raw: bytes)
    requires DecodePacket(raw).Some?
    ensures WellFormed(DecodePacket(raw).value) && EncodePacket(DecodePacket(raw).value) == Some(raw)
  {
    if raw[0] == RELAY_FORWARD || raw[0] == RELAY_REPLY {
      RelayReverse(raw);
    } else {
      ClientReverse(raw);
    }
  }

  // ---------- relaying ----------

  datatype Inner = NoInner | BadInner | Inner(packet: Packet)

  /** Encapsulated. */
  function Encapsulated(p: Packet): Inner
  {
    match Get(p.options, RELAY_MESSAGE)
    case None => NoInner
    case Some(raw) => match DecodePacket(raw) case None => BadInner case Some(inner) => Inner(inner)
  }

  /** The options of a relayed reply; an inner packet that does not encode
      leaves an empty message. */
  function ReplyOptions(req: Packet, inner: Packet): Options
  {
    (match Get(req.options, INTERFACE_ID) case None => [] case Some(id) => [Opt(INTERFACE_ID, id)])
    + [Opt(RELAY_MESSAGE, match EncodePacket(inner) case None => [] case Some(raw) => raw)]
  }

  function RelayReply(req: Packet, inner: Packet): Packet
  {
    PacketParts(RELAY_REPLY, [0, 0, 0], req.hopCount, req.linkAddress, req.peerAddress, ReplyOptions(req, inner))
  }

  /** encapsulateRelayReply, adding to its option list step by step. */
  method EncapsulateRelayReply(req: Packet, inner: Packet) returns (resp: Packet)
    ensures resp == RelayReply(req, inner)
  {
    var options := new OptionList();
    var id := Get(req.options, INTERFACE_ID);
    if id.Some? {
      options.Add(INTERFACE_ID, id.value);
    }
    var raw := EncodePacket(inner);
    options.Add(RELAY_MESSAGE, if raw == None then [] else raw.value);
    resp := PacketParts(RELAY_REPLY, [0, 0, 0], req.hopCount, req.linkAddress, req.peerAddress, options.items);
  }

  lemma {:induction false} GetFits(os: Options, code: uint16)
    requires Encodable(os) && Get(os, code).Some?
    ensures |Get(os, code).value| <= 65535
  {
    if os != [] && os[0].code != code {
      assert forall i :: 0 <= i < |os[1..]| ==> os[1..][i] == os[i + 1];
      GetFits(os[1..], code);
    }
  }

  /** A relayed reply, sent and read back by the relay agent, yields the inner
      packet exactly when that packet encodes into at most 65535 bytes. */
  lemma RelayRoundTrip(request: bytes, inner: Packet)
    requires DecodePacket(request).Some? && IsRelay(DecodePacket(request).value) && WellFormed(inner)
    ensures var wire := EncodePacket(RelayReply(DecodePacket(request).value, inner));
            (&& wire.Some? && DecodePacket(wire.value).Some?
             && Encapsulated(DecodePacket(wire.value).value) == Inner(inner))
            <==> EncodePacket(inner).Some? && |EncodePacket(inner).value| <= 65535
  {
    var req := DecodePacket(request).value;
    var resp := RelayReply(req, inner);
    PacketReverse(request);
    PacketRoundTrip(req);
    PacketRoundTrip(inner);
    PacketRoundTrip(resp);
    var os := ReplyOptions(req, inner);
    if Get(req.options, INTERFACE_ID).Some? {
      GetFits(req.options, INTERFACE_ID);
      assert os[1..] == [Opt(RELAY_MESSAGE, os[1].value)];
    }
    assert |os| > 0 && os[|os| - 1].value == match EncodePacket(inner) case None => [] case Some(raw) => raw;
    assert Get(os, RELAY_MESSAGE) == Some(os[|os| - 1].value);
  }
}
