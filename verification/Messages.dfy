/** Message headers (crates/steam/src/messages/header.rs), outgoing messages (client/msg.rs) and the parsing of incoming
    ones (client/mod.rs:515-554). */
module Messages {
  import opened Base
  import opened LittleEndian

  /** Bit 31 of a raw message id. */
  const PROTO_MASK := 0x8000_0000

  const MULTI := 1
  const SERVICE_METHOD_RESPONSE := 147
  const CHANNEL_ENCRYPT_REQUEST := 1303
  const CHANNEL_ENCRYPT_RESPONSE := 1304
  const CHANNEL_ENCRYPT_RESULT := 1305

  function EMsgOf(raw: nat): nat
  {
    raw % PROTO_MASK
  }

  predicate IsProto(raw: nat)
  {
    raw / PROTO_MASK % 2 == 1
  }

  /** `emsg | PROTO_MASK`. */
  function WithProto(emsg: nat): nat
  {
    EMsgOf(emsg) + PROTO_MASK
  }

  // ---------------------------------------------------------------- fixed headers

  datatype MsgHdr = MsgHdr(emsg: nat, targetJob: nat, sourceJob: nat)

  datatype ExtendedHdr = ExtendedHdr(emsg: nat, size: nat, version: nat, targetJob: nat, sourceJob: nat, canary: nat,
                                     steamId: nat, sessionId: I32)

  datatype ProtoHdr = ProtoHdr(emsg: nat, isProto: bool, data: Bytes)

  datatype Packet = Simple(hdr: MsgHdr, body: Bytes) | Extended(ext: ExtendedHdr,
      body: Bytes) | Protobuf(proto: ProtoHdr, body: Bytes)

  const SIMPLE_WIDTHS: seq<nat> := [4, 8, 8]
  const EXTENDED_WIDTHS: seq<nat> := [4, 1, 2, 8, 8, 1, 8, 4]

  function SimpleFields(h: MsgHdr): seq<nat>
  {
    [h.emsg, h.targetJob, h.sourceJob]
  }

  function ExtendedFields(h: ExtendedHdr): seq<nat>
  {
    [h.emsg, h.size, h.version, h.targetJob, h.sourceJob, h.canary, h.steamId, OfI32(h.sessionId)]
  }

  function SimpleBytes(h: MsgHdr): Bytes
  {
    Fields(SimpleFields(h), SIMPLE_WIDTHS)
  }

  function ExtendedBytes(h: ExtendedHdr): Bytes
  {
    Fields(ExtendedFields(h), EXTENDED_WIDTHS)
  }

  /** The raw id carries the flag; the length is cut to 32 bits, the data is not. */
  function ProtoBytes(h: ProtoHdr): Bytes
  {
    Le(if h.isProto then WithProto(h.emsg) else h.emsg, 4) + (Le(|h.data| % U32, 4) + h.data)
  }

  function ParseSimple(b: Bytes): Option<(MsgHdr, Bytes)>
  {
    match ReadFields(b, SIMPLE_WIDTHS)
    case None => None
    case Some((v, rest)) => if |v| == 3 then Some((MsgHdr(EMsgOf(v[0]), v[1], v[2]), rest)) else None
  }

  function ParseExtended(b: Bytes): Option<(ExtendedHdr, Bytes)>
  {
    match ReadFields(b, EXTENDED_WIDTHS)
    case None => None
    case Some((v, rest)) =>
      if |v| == 8 && v[7] < U32
      then Some((ExtendedHdr(EMsgOf(v[0]), v[1], v[2], v[3], v[4], v[5], v[6], ToI32(v[7])), rest))
      else None
  }

  function ParseProto(b: Bytes): Option<(ProtoHdr, Bytes)>
  {
    match ReadUint(b, 4)
    case None => None
    case Some((raw, b1)) =>
      match ReadUint(b1, 4)
      case None => None
      case Some((len, b2)) =>
        if |b2| < len then None else Some((ProtoHdr(EMsgOf(raw), IsProto(raw), b2[..len]), b2[len..]))
  }

  /** Peeks at the raw id, then picks the header kind. */
  function ParsePacket(b: Bytes): Option<Packet>
  {
    if |b| < 4 then None
    else
      var raw := UnLe(b[..4]);
      if IsProto(raw) then
        match ParseProto(b)
        case None => None
        case Some((h, body)) => Some(Protobuf(h, body))
      else if EMsgOf(raw) in {CHANNEL_ENCRYPT_REQUEST, CHANNEL_ENCRYPT_RESPONSE, CHANNEL_ENCRYPT_RESULT} then
        match ParseSimple(b)
        case None => None
        case Some((h, body)) => Some(Simple(h, body))
      else
        match ParseExtended(b)
        case None => None
        case Some((h, body)) => Some(Extended(h, body))
  }

  predicate IsChannelEncrypt(emsg: nat)
  {
    emsg in {CHANNEL_ENCRYPT_REQUEST, CHANNEL_ENCRYPT_RESPONSE, CHANNEL_ENCRYPT_RESULT}
  }

  function PacketBytes(p: Packet): Bytes
  {
    match p
    case Simple(h, body) => SimpleBytes(h) + body
    case Extended(h, body) => ExtendedBytes(h) + body
    case Protobuf(h, body) => ProtoBytes(h) + body
  }

  /** Field values fit their wire widths. */
  ghost predicate PacketFits(p: Packet)
  {
    match p
    case Simple(h, _) => Fits(SimpleFields(h), SIMPLE_WIDTHS)
    case Extended(h, _) => Fits(ExtendedFields(h), EXTENDED_WIDTHS)
    case Protobuf(h, _) => h.emsg < U32 && |h.data| < U32
  }

  /** The header kind the dispatch would choose for the id, with bit 31 clear. */
  predicate Dispatched(p: Packet)
  {
    match p
    case Simple(h, _) => h.emsg < PROTO_MASK && IsChannelEncrypt(h.emsg)
    case Extended(h, _) => h.emsg < PROTO_MASK && !IsChannelEncrypt(h.emsg)
    case Protobuf(h, _) => h.emsg < PROTO_MASK && h.isProto
  }

  lemma SimpleBack(h: MsgHdr, body: Bytes)
    requires Fits(SimpleFields(h), SIMPLE_WIDTHS)
    ensures ParseSimple(SimpleBytes(h) + body) == Some((h.(emsg := EMsgOf(h.emsg)), body))
  {
    ReadFieldsBack(SimpleFields(h), SIMPLE_WIDTHS, body);
  }

  lemma ExtendedBack(h: ExtendedHdr, body: Bytes)
    requires Fits(ExtendedFields(h), EXTENDED_WIDTHS)
    ensures ParseExtended(ExtendedBytes(h) + body) == Some((h.(emsg := EMsgOf(h.emsg)), body))
  {
    ReadFieldsBack(ExtendedFields(h), EXTENDED_WIDTHS, body);
    assert ExtendedFields(h)[7] == OfI32(h.sessionId);
  }

  lemma ProtoBack(h: ProtoHdr, body: Bytes)
    requires h.emsg < U32 && |h.data| < U32
    ensures ParseProto(ProtoBytes(h) + body) ==
            Some((ProtoHdr(EMsgOf(h.emsg), h.isProto || h.emsg >= PROTO_MASK, h.data), body))
  {
    RawMask(h.emsg, h.isProto);
    SmallMod(|h.data|);
    var raw := if h.isProto then WithProto(h.emsg) else h.emsg;
    Nested(Le(raw, 4), Le(|h.data|, 4), h.data, body);
    RawBack(raw, h.data, body);
  }

  lemma RawMask(emsg: nat, isProto: bool)
    requires emsg < U32
    ensures var raw := if isProto then WithProto(emsg) else emsg;
            raw < U32 && EMsgOf(raw) == EMsgOf(emsg) && (IsProto(raw) <==> isProto || emsg >= PROTO_MASK)
  {
    MaskFacts(emsg);
  }

  lemma SmallMod(n: nat)
    requires n < U32
    ensures n % U32 == n
  {
  }

  lemma RawBack(raw: nat, data: Bytes, body: Bytes)
    requires raw < U32 && |data| < U32
    ensures ParseProto(Le(raw, 4) + (Le(|data|, 4) + (data + body))) ==
              Some((ProtoHdr(EMsgOf(raw), IsProto(raw), data), body))
  {
    Widths();
    ReadBack(raw, 4, Le(|data|, 4) + (data + body));
    ReadBack(|data|, 4, data + body);
    Halves(data, body);
  }

  lemma FirstField(n: nat, more: Bytes)
    requires n < U32
    ensures |Le(n, 4) + more| >= 4 && UnLe((Le(n, 4) + more)[..4]) == n
  {
    Widths();
    UnLeLe(n, 4);
    assert (Le(n, 4) + more)[..4] == Le(n, 4);
  }

  lemma SimpleRoundTrip(p: Packet)
    requires p.Simple? && PacketFits(p)
    ensures ParsePacket(PacketBytes(p)) == Some(p) <==> Dispatched(p)
  {
    Widths();
    var v := SimpleFields(p.hdr);
    assert v[0] < Pow256(SIMPLE_WIDTHS[0]);
    FieldsHead(v, SIMPLE_WIDTHS, p.body);
    FirstField(p.hdr.emsg, Fields(v[1..], SIMPLE_WIDTHS[1..]) + p.body);
    SimpleBack(p.hdr, p.body);
  }

  lemma ExtendedRoundTrip(p: Packet)
    requires p.Extended? && PacketFits(p)
    ensures ParsePacket(PacketBytes(p)) == Some(p) <==> Dispatched(p)
  {
    Widths();
    var v := ExtendedFields(p.ext);
    assert v[0] < Pow256(EXTENDED_WIDTHS[0]);
    FieldsHead(v, EXTENDED_WIDTHS, p.body);
    FirstField(p.ext.emsg, Fields(v[1..], EXTENDED_WIDTHS[1..]) + p.body);
    ExtendedBack(p.ext, p.body);
  }

  lemma MaskFacts(emsg: nat)
    requires emsg < U32
    ensures IsProto(WithProto(emsg)) && EMsgOf(WithProto(emsg)) == EMsgOf(emsg) && WithProto(emsg) < U32
    ensures IsProto(emsg) <==> emsg >= PROTO_MASK
    ensures EMsgOf(emsg) == emsg <==> emsg < PROTO_MASK
  {
  }

  lemma ProtoRoundTrip(p: Packet)
    requires p.Protobuf? && PacketFits(p)
    ensures ParsePacket(PacketBytes(p)) == Some(p) <==> Dispatched(p)
  {
    var h := p.proto;
    var raw := if h.isProto then WithProto(h.emsg) else h.emsg;
    MaskFacts(h.emsg);
    var more := Le(|h.data| % U32, 4) + h.data + p.body;
    FirstField(raw, more);
    assert PacketBytes(p) == Le(raw, 4) + more;
    ProtoBack(h, p.body);
  }

  /** A written packet dispatches back to itself exactly when it carries the header kind its id calls for. */
  lemma PacketRoundTrip(p: Packet)
    requires PacketFits(p)
    ensures ParsePacket(PacketBytes(p)) == Some(p) <==> Dispatched(p)
  {
    match p
    case Simple(_, _) => SimpleRoundTrip(p);
    case Extended(_, _) => ExtendedRoundTrip(p);
    case Protobuf(_, _) => ProtoRoundTrip(p);
  }

  // ---------------------------------------------------------------- client messages

  /** The protobuf header: the fields the client looks at, and everything else. */
  datatype Header = Header(jobTarget: Option<nat>, eresult: Option<int>, other: Bytes)

  /** The protobuf codec, as far as its caller sees it. */
  datatype Proto = Proto(encode: Header -> Bytes, decode: Bytes -> Option<Header>, blank: Header)

  ghost predicate Faithful(p: Proto)
  {
    forall h :: p.decode(p.encode(h)) == Some(h)
  }

  datatype ClientMsg = ClientMsg(emsg: nat, header: Header, body: Bytes)

  datatype Incoming = Incoming(emsg: nat, isProto: bool, header: Header, body: Bytes)

  datatype ParseError = PacketTooShort(need: nat, got: nat) | UnexpectedEof | BadHeader

  function MsgBytes(p: Proto, m: ClientMsg): Bytes
  {
    var h := p.encode(m.header);
    Le(WithProto(m.emsg), 4) + (Le(|h| % U32, 4) + (h + m.body))
  }

  method WriteTo(p: Proto, m: ClientMsg, w: Writer)
    modifies w
    ensures w.out == old(w.out) + MsgBytes(p, m)
    ensures |w.out| == |old(w.out)| + SerializedLen(p, m)
  {
    var h := p.encode(m.header);
    w.Uint(WithProto(m.emsg), 4);
    w.Uint(|h| % U32, 4);
    w.All(h);
    w.All(m.body);
    Appended(old(w.out), Le(WithProto(m.emsg), 4), Le(|h| % U32, 4), h, m.body);
  }

  lemma Appended(out: Bytes, id: Bytes, len: Bytes, h: Bytes, body: Bytes)
    ensures out + id + len + h + body == out + (id + (len + (h + body)))
  {
  }

  function SerializedLen(p: Proto, m: ClientMsg): nat
  {
    8 + |p.encode(m.header)| + |m.body|
  }

  function ParseIncoming(p: Proto, data: Bytes): Result<Incoming, ParseError>
  {
    if |data| < 4 then Err(PacketTooShort(4, |data|))
    else
      var raw := UnLe(data[..4]);
      if IsProto(raw) then
        match ParseProto(data)
        case None => Err(UnexpectedEof)
        case Some((h, body)) =>
          match p.decode(h.data)
          case None => Err(BadHeader)
          case Some(header) => Ok(Incoming(EMsgOf(raw), true, header, body))
      else if |data| < 20 then Err(PacketTooShort(20, |data|))
      else Ok(Incoming(EMsgOf(raw), false, p.blank, data[20..]))
  }

  /** The reader-advancing header parse. */
  method ReadProto(r: Reader) returns (h: Option<ProtoHdr>)
    modifies r
    ensures var s := ParseProto(old(r.rest));
            if s.Some? then h == Some(s.value.0) && r.rest == s.value.1 else h.None?
  {
    var raw := r.Uint(4);
    if raw.None? {
      return None;
    }
    var len := r.Uint(4);
    if len.None? {
      return None;
    }
    var data := r.Take(len.value);
    if data.None? {
      return None;
    }
    h := Some(ProtoHdr(EMsgOf(raw.value), IsProto(raw.value), data.value));
  }

  method ReadSimple(r: Reader) returns (h: Option<MsgHdr>)
    modifies r
    ensures var s := ParseSimple(old(r.rest));
            if s.Some? then h == Some(s.value.0) && r.rest == s.value.1 else h.None?
  {
    assert SIMPLE_WIDTHS == [4] + [8, 8] && [8, 8] == [8] + [8] && [8] == [8] + [];
    ReadFieldsCons(r.rest, 4, [8, 8]);
    var raw := r.Uint(4);
    if raw.None? {
      return None;
    }
    ReadFieldsCons(r.rest, 8, [8]);
    var target := r.Uint(8);
    if target.None? {
      return None;
    }
    ReadFieldsCons(r.rest, 8, []);
    var source := r.Uint(8);
    if source.None? {
      return None;
    }
    h := Some(MsgHdr(EMsgOf(raw.value), target.value, source.value));
  }

  /** What is read back from a message: the id below 2^31, the same header and the same body. */
  lemma IncomingBack(p: Proto, m: ClientMsg)
    requires Faithful(p) && m.emsg < U32 && |p.encode(m.header)| < U32
    ensures ParseIncoming(p, MsgBytes(p, m)) == Ok(Incoming(EMsgOf(m.emsg), true, m.header, m.body))
  {
    var h := p.encode(m.header);
    var raw := WithProto(m.emsg);
    RawMask(m.emsg, true);
    SmallMod(|h|);
    RawBack(raw, h, m.body);
    FirstField(raw, Le(|h|, 4) + (h + m.body));
  }

  lemma ExtendedWidth(h: ExtendedHdr)
    ensures |ExtendedBytes(h)| == 36
  {
    FieldsLength(ExtendedFields(h), EXTENDED_WIDTHS);
    ExtendedSum();
  }

  /** An incoming message is cut after 20 bytes whenever it is not protobuf, so one with an extended header keeps the
      last 16 bytes of that header in front of its body, unlike `parse_packet_header`. */
  lemma ExtendedIncoming(p: Proto, h: ExtendedHdr, body: Bytes)
    requires Fits(ExtendedFields(h), EXTENDED_WIDTHS) && h.emsg < PROTO_MASK
    ensures |ExtendedBytes(h)| == 36
    ensures ParseIncoming(p, ExtendedBytes(h) + body) ==
              Ok(Incoming(h.emsg, false, p.blank, ExtendedBytes(h)[20..] + body))
  {
    ExtendedWidth(h);
    MaskFacts(h.emsg);
    FieldsHead(ExtendedFields(h), EXTENDED_WIDTHS, body);
    FirstField(h.emsg, Fields(ExtendedFields(h)[1..], EXTENDED_WIDTHS[1..]) + body);
    assert (ExtendedBytes(h) + body)[20..] == ExtendedBytes(h)[20..] + body;
  }

  function BodyOf(p: Packet): Bytes
  {
    match p
    case Simple(_, body) => body
    case Extended(_, body) => body
    case Protobuf(_, body) => body
  }

  /** On any packet that dispatches (and whose protobuf header, if it has one, decodes) `parse_incoming` gives the body
      that `parse_packet_header` leaves if and only if the header is not the extended one. */
  lemma BodiesAgree(p: Proto, data: Bytes, pkt: Packet)
    requires ParsePacket(data) == Some(pkt) && (pkt.Protobuf? ==> p.decode(pkt.proto.data).Some?)
    ensures var r := ParseIncoming(p, data);
            r.Ok? && (r.value.body == BodyOf(pkt) <==> !pkt.Extended?)
  {
    if pkt.Extended? {
      FieldsRest(data, EXTENDED_WIDTHS);
      ExtendedSum();
    } else if pkt.Simple? {
      FieldsRest(data, SIMPLE_WIDTHS);
      SimpleSum();
    }
  }

  lemma FieldsRest(b: Bytes, widths: seq<nat>)
    ensures var r := ReadFields(b, widths); r.Some? ==> Sum(widths) <= |b| && r.value.1 == b[Sum(widths)..]
  {
    FieldsExact(b, widths);
    var r := ReadFields(b, widths);
    if r.Some? {
      FieldsLength(r.value.0, widths);
    }
  }

  lemma SimpleSum()
    ensures Sum(SIMPLE_WIDTHS) == 20
  {
    assert Sum([8]) == 8 && Sum([8, 8]) == 8 + Sum([8]);
  }

  lemma ExtendedSum()
    ensures Sum(EXTENDED_WIDTHS) == 36
  {
    assert Sum([4]) == 4 && Sum([8, 4]) == 8 + Sum([4]) && Sum([1, 8, 4]) == 1 + Sum([8, 4]);
    assert Sum([8, 1, 8, 4]) == 8 + Sum([1, 8, 4]) && Sum([8, 8, 1, 8, 4]) == 8 + Sum([8, 1, 8, 4]);
    assert Sum([2, 8, 8, 1, 8, 4]) == 2 + Sum([8, 8, 1, 8, 4]) &&
             Sum([1, 2, 8, 8, 1, 8, 4]) == 1 + Sum([2, 8, 8, 1, 8, 4]);
  }
}
