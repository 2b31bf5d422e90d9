/** Where every field lies on the wire, byte by byte: message headers (crates/steam/src/messages/header.rs), incoming
    messages (client/mod.rs:515-554), frames (connection/framing.rs) and bundles (client/multi.rs). */
module WireLayout {
  import opened Base
  import opened LittleEndian
  import opened Messages
  import Framing
  import Multi

  // ---------------------------------------------------------------- headers

  lemma SimpleStarts()
    ensures Start([4, 8, 8], 0) == 0 && Start([4, 8, 8], 1) == 4 && Start([4, 8, 8], 2) == 12
  {
  }

  /** The 20-byte header. */
  lemma SimpleLayout(b: Bytes)
    ensures if |b| < 20 then ParseSimple(b).None?
            else ParseSimple(b) == Some((MsgHdr(U32At(b, 0) % 0x8000_0000, U64At(b, 4), U64At(b, 12)), b[20..]))
  {
    FieldsExact(b, SIMPLE_WIDTHS);
    SimpleSum();
    if |b| >= 20 {
      FieldsRest(b, SIMPLE_WIDTHS);
      SimpleStarts();
      FieldAt(b, SIMPLE_WIDTHS, 0);
      FieldAt(b, SIMPLE_WIDTHS, 1);
      FieldAt(b, SIMPLE_WIDTHS, 2);
      Numbers(b, 0);
      Numbers(b, 4);
      Numbers(b, 12);
    }
  }

  lemma ExtendedStarts()
    ensures var w: seq<nat> := [4, 1, 2, 8, 8, 1, 8, 4];
            && Start(w, 0) == 0 && Start(w, 1) == 4 && Start(w, 2) == 5 && Start(w, 3) == 7
            && Start(w, 4) == 15 && Start(w, 5) == 23 && Start(w, 6) == 24 && Start(w, 7) == 32
  {
  }

  lemma ExtendedValues(b: Bytes, v: seq<nat>)
    requires |b| >= 36 && ValuesAt(b, [4, 1, 2, 8, 8, 1, 8, 4], v)
    ensures |v| == 8 && v[0] == U32At(b, 0) && v[1] == b[4] && v[2] == U16At(b, 5) && v[3] == U64At(b, 7)
    ensures v[4] == U64At(b, 15) && v[5] == b[23] && v[6] == U64At(b, 24) && v[7] == U32At(b, 32)
  {
    var widths: seq<nat> := [4, 1, 2, 8, 8, 1, 8, 4];
    ExtendedStarts();
    NumberAt(b, widths, v, 0, 0);
    NumberAt(b, widths, v, 1, 4);
    NumberAt(b, widths, v, 2, 5);
    NumberAt(b, widths, v, 3, 7);
    NumberAt(b, widths, v, 4, 15);
    NumberAt(b, widths, v, 5, 23);
    NumberAt(b, widths, v, 6, 24);
    NumberAt(b, widths, v, 7, 32);
  }

  /** The 36-byte header. */
  lemma ExtendedLayout(b: Bytes)
    ensures if |b| < 36 then ParseExtended(b).None?
            else
              && ParseExtended(b).Some?
              && var (h, rest) := ParseExtended(b).value;
                 && rest == b[36..]
                 && h.emsg == U32At(b, 0) % 0x8000_0000
                 && h.size == b[4] && h.version == U16At(b, 5)
                 && h.targetJob == U64At(b, 7) && h.sourceJob == U64At(b, 15)
                 && h.canary == b[23] && h.steamId == U64At(b, 24)
                 && h.sessionId == Signed32(U32At(b, 32))
  {
    FieldsExact(b, EXTENDED_WIDTHS);
    ExtendedSum();
    if |b| >= 36 {
      var (v, rest) := ReadFields(b, EXTENDED_WIDTHS).value;
      ReadValues(b, EXTENDED_WIDTHS, v, rest);
      ExtendedValues(b, v);
    }
  }

  /** The protobuf header: 8 bytes, and as many more as the second number says. */
  lemma ProtoLayout(b: Bytes)
    ensures if |b| < 8 || |b| < 8 + U32At(b, 4) then ParseProto(b).None?
            else
              ParseProto(b) == Some((ProtoHdr(U32At(b, 0) % 0x8000_0000, U32At(b, 0) >= 0x8000_0000,
                                              b[8..8 + U32At(b, 4)]), b[8 + U32At(b, 4)..]))
  {
    if |b| >= 8 {
      Numbers(b, 0);
      Numbers(b, 4);
      var len := U32At(b, 4);
      assert b[..4] == b[0..4] && b[4..][..4] == b[4..8] && b[4..][4..] == b[8..];
      if |b| >= 8 + len {
        assert b[8..][..len] == b[8..8 + len] && b[8..][len..] == b[8 + len..];
      }
    }
  }

  /** Which header a packet has: bit 31 of the id says protobuf; else the three channel-encryption ids have the short
      header and all others the extended one. */
  lemma PacketLayout(b: Bytes)
    ensures ParsePacket(b) ==
            if |b| < 4 then None
            else if U32At(b, 0) >= 0x8000_0000 then
              if ParseProto(b).None? then None else Some(Protobuf(ParseProto(b).value.0, ParseProto(b).value.1))
            else if U32At(b, 0) == 1303 || U32At(b, 0) == 1304 || U32At(b, 0) == 1305 then
              if ParseSimple(b).None? then None else Some(Simple(ParseSimple(b).value.0, ParseSimple(b).value.1))
            else
              if ParseExtended(b).None? then None
              else Some(Extended(ParseExtended(b).value.0, ParseExtended(b).value.1))
  {
    if |b| >= 4 {
      Numbers(b, 0);
      assert b[..4] == b[0..4];
    }
  }

  /** What the client makes of an incoming message, and of one that is cut short or whose header does not decode. */
  lemma IncomingLayout(p: Proto, b: Bytes)
    ensures ParseIncoming(p, b) ==
            if |b| < 4 then Err(PacketTooShort(4, |b|))
            else if U32At(b, 0) < 0x8000_0000 then
              if |b| < 20 then Err(PacketTooShort(20, |b|))
              else Ok(Incoming(U32At(b, 0), false, p.blank, b[20..]))
            else if |b| < 8 || |b| < 8 + U32At(b, 4) then Err(UnexpectedEof)
            else
              match p.decode(b[8..8 + U32At(b, 4)])
              case None => Err(BadHeader)
              case Some(header) =>
                Ok(Incoming(U32At(b, 0) - 0x8000_0000, true, header, b[8 + U32At(b, 4)..]))
  {
    ProtoLayout(b);
    if |b| >= 4 {
      Numbers(b, 0);
      assert b[..4] == b[0..4];
      HighBit(U32At(b, 0));
    }
  }

  lemma HighBit(n: nat)
    requires n < 0x1_0000_0000
    ensures IsProto(n) <==> n >= 0x8000_0000
    ensures EMsgOf(n) == if n < 0x8000_0000 then n else n - 0x8000_0000
  {
  }

  // ---------------------------------------------------------------- frames

  lemma MagicIs(b: Bytes)
    requires |b| >= 8
    ensures U32At(b, 4) == Framing.MAGIC <==> b[4..8] == [0x56, 0x54, 0x30, 0x31]
  {
    assert b[4..8] == [b[4], b[5], b[6], b[7]];
  }

  /** A frame is a length, the bytes "VT01", and that many bytes of payload. */
  lemma FrameLayout(b: Bytes)
    ensures Framing.ParseFrameSpec(b) ==
            if |b| < 8 then Framing.Incomplete
            else if b[4..8] != [0x56, 0x54, 0x30, 0x31] then Framing.BadMagic
            else if |b| < 8 + U32At(b, 0) then Framing.Incomplete
            else Framing.Frame(b[8..8 + U32At(b, 0)], b[8 + U32At(b, 0)..])
  {
    if |b| >= 8 {
      Numbers(b, 0);
      Numbers(b, 4);
      MagicIs(b);
      var len := U32At(b, 0);
      assert b[..4] == b[0..4] && b[4..][..4] == b[4..8] && b[4..][4..] == b[8..];
      if |b| >= 8 + len {
        assert b[8..][..len] == b[8..8 + len] && b[8..][len..] == b[8 + len..];
      }
    }
  }

  // ---------------------------------------------------------------- bundles

  /** Where record `i` starts. */
  function RecordStart(records: seq<Bytes>, i: nat): nat
    requires i <= |records|
  {
    if i == 0 then 0 else RecordStart(records, i - 1) + 4 + |records[i - 1]|
  }

  lemma {:induction false} RecordStartCons(records: seq<Bytes>, i: nat)
    requires 0 < i <= |records|
    ensures RecordStart(records, i) == 4 + |records[0]| + RecordStart(records[1..], i - 1)
  {
    if i > 1 {
      RecordStartCons(records, i - 1);
    }
  }

  /** Record `i` lies in the payload, its length before it. */
  predicate RecordAt(payload: Bytes, records: seq<Bytes>, i: nat)
    requires i < |records|
  {
    var o, n := RecordStart(records, i), |records[i]|;
    o + 4 + n <= |payload| && U32At(payload, o) == n && payload[o + 4..o + 4 + n] == records[i]
  }

  /** No complete record starts there. */
  predicate NoRecordAt(payload: Bytes, o: nat)
  {
    o <= |payload| && (|payload| - o < 4 || |payload| - o < 4 + U32At(payload, o))
  }

  /** The records lie in the payload one after another, up to where no complete one is left. */
  ghost predicate Lie(payload: Bytes, records: seq<Bytes>)
  {
    && (forall i: nat | i < |records| :: RecordAt(payload, records, i))
    && NoRecordAt(payload, RecordStart(records, |records|))
  }

  lemma OneMore(payload: Bytes, len: nat, records: seq<Bytes>)
    requires |payload| >= 4 + len && len == U32At(payload, 0) && records != []
    requires records[0] == payload[4..4 + len] && Lie(payload[4 + len..], records[1..])
    ensures Lie(payload, records)
  {
    forall i: nat | i < |records|
      ensures RecordAt(payload, records, i)
    {
      if i > 0 {
        assert RecordAt(payload[4 + len..], records[1..], i - 1);
        LaterRecord(payload, records, i);
      }
    }
    RecordStartCons(records, |records|);
    var o := RecordStart(records[1..], |records| - 1);
    if |payload| - (4 + len + o) >= 4 {
      assert U32At(payload[4 + len..], o) == U32At(payload, 4 + len + o);
    }
  }

  /** What the records of a payload are. */
  lemma {:induction false} BundleLayout(payload: Bytes)
    ensures Lie(payload, Multi.Records(payload))
    decreases |payload|
  {
    if |payload| >= 4 {
      Numbers(payload, 0);
      assert payload[..4] == payload[0..4];
      var len := U32At(payload, 0);
      if |payload| >= 4 + len {
        BundleLayout(payload[4 + len..]);
        var records := Multi.Records(payload);
        assert records[1..] == Multi.Records(payload[4 + len..]);
        OneMore(payload, len, records);
      }
    }
  }

  lemma LaterRecord(payload: Bytes, records: seq<Bytes>, i: nat)
    requires 0 < i < |records| && 4 + |records[0]| <= |payload|
    requires RecordAt(payload[4 + |records[0]|..], records[1..], i - 1)
    ensures RecordAt(payload, records, i)
  {
    RecordStartCons(records, i);
    Shifted(payload, 4 + |records[0]|, RecordStart(records[1..], i - 1), |records[i]|);
  }

  lemma Shifted(b: Bytes, k: nat, o: nat, n: nat)
    requires k <= |b| && o + 4 + n <= |b| - k
    ensures U32At(b[k..], o) == U32At(b, k + o)
    ensures b[k..][o + 4..o + 4 + n] == b[k + o + 4..k + o + 4 + n]
  {
  }

  /** What a bundle unpacks to: nothing without a payload; the records of the payload, unzipped first exactly if a size
      above 0 is given. */
  lemma UnpackExactly(c: Multi.Codec, body: Bytes)
    ensures Multi.UnpackSpec(c, body) ==
            match c.decode(body)
            case None => Err(Multi.BadBundle)
            case Some(Bundle(None, _)) => Ok([])
            case Some(Bundle(Some(raw), None)) => Ok(Multi.Records(raw))
            case Some(Bundle(Some(raw), Some(size))) =>
              if size == 0 then Ok(Multi.Records(raw))
              else
                match c.gunzip(raw)
                case None => Err(Multi.BadGzip)
                case Some(plain) => Ok(Multi.Records(plain))
  {
  }
}
